# LittleDarwin `JavaRead` in Dafny

A model of the `JavaRead` class of the LittleDarwin mutation-testing tool
(`littledarwin/JavaRead.py`), the bookkeeping layer between the source tree
and the generated mutants:

- **Discovery** (`listFiles`) records the source root and the results root
  `<buildPath>/LittleDarwinResults`, appends every `*.java` file of a walk of
  the source tree to `fileList` (it never resets the list), filters the list,
  and creates the results root when missing.
- **Filtering** (`filterFiles`) narrows `fileList` by a whitelist or a
  blacklist. A token holding `/` or `\` is a path token and selects the paths
  containing it verbatim; any other token is a package token: it is stripped,
  split on `.`, framed as `/a/b/c/` and searched for in `/<path>/`, so it
  selects exactly the paths in which its components are consecutive whole
  segments of the path, the file name included (`com.example.foo` does not
  select `com/example/foobar/A.java`: the component `foo` matches only a
  whole segment `foo`). Blank package tokens are skipped. A whitelist keeps
  the selected files, a blacklist the others, once each, in no promised order.
- **Output writing** (`generateNewFile`) gives each original its mirror
  directory under the results root, copies the original there as
  `original.java` only if no copy exists, rewrites `density.csv` (one
  `line,count` row per key, keys ascending) when the density map is
  non-empty, writes the mutant to `n.java` for the smallest positive `n`
  whose file is absent, and returns that path relative to the results root.

Files:

- `strings.dfy` (module `PyStrings`): the Python string operations the class
  relies on — `str.isspace`, `strip`, `split(sep)`, `sep.join`, the substring
  test `p in s`, `str(int)` — each with an independent characterisation or an
  inverse (`JoinSplit`, `SplitJoin`, `IntStrRoundTrip`, `ContainsAt`, ...).
- `segments.dfy` (module `Segments`): separator framing of segment lists and
  the theorem that a framed pattern occurs in a framed path exactly when its
  segments are a contiguous run of the path's segments.
- `javaread.dfy` (module `JavaRead`): the `JavaRead` class with its fields
  `sourceDirectory`, `targetDirectory` and `fileList`, a `FileSystem` class
  (a map from path to text and a set of directories), the specification
  functions of the three parts, and the lemmas about them.

The walk of the source tree (`os.walk`) is a parameter: a sequence of
`(directory, file names)` steps. The glob `*.java` is a suffix test. The path
separator is `/` and paths are taken as normalised, so `os.path.relpath` of a
file below the source root is the text after the root and its separator.

Three behaviours of the code that are easy to miss:

- An empty, non-`None` token list is not treated like `None`: only `None`
  leaves the list alone (`littledarwin/JavaRead.py:19-20`). An empty list
  empties the file list under a whitelist and de-duplicates it under a
  blacklist (`EmptyTokenList`).
- `listFiles` itself calls `filterFiles` (`littledarwin/JavaRead.py:66`), and
  so does `ListFiles`.
- A missing source root is an empty walk: `os.walk` yields nothing for it
  (`littledarwin/JavaRead.py:62`), so nothing is appended.

## Model

| member | source | states |
|---|---|---|
| JavaRead.JavaRead.constructor | littledarwin/JavaRead.py:12-16 | a new reader has no source root, no results root and an empty file list |
| JavaRead.JavaRead.FilterFiles | littledarwin/JavaRead.py:18-55 | with no filter list the file list is unchanged (order and duplicates kept); otherwise it becomes a duplicate-free list whose elements are the files some token selects (whitelist) or the other files (blacklist); any other mode is excluded by precondition |
| JavaRead.PartitionTokens | littledarwin/JavaRead.py:29-33 | every token lands in exactly one of the two lists: path tokens (holding `/` or `\`) in `cuList`, all others in `packageList` |
| JavaRead.CollectPackageMatches | littledarwin/JavaRead.py:35-47 | the collected list holds exactly the files some package token selects through its framed pattern; blank tokens add nothing |
| JavaRead.CollectPathMatches | littledarwin/JavaRead.py:49-50 | appending the path-token matches adds exactly the files containing some path token verbatim |
| JavaRead.Select | littledarwin/JavaRead.py:47-50 | the comprehension `[x for x in files if keep(x)]` keeps exactly the files satisfying the test and is no longer than the list |
| JavaRead.IsPathToken | littledarwin/JavaRead.py:30 | a token is a path token when it holds `\` or `/` |
| JavaRead.PackagePattern | littledarwin/JavaRead.py:41-45 | the pattern of a package token is `"/".join([""] + tok.strip().split(".") + [""])` |
| JavaRead.Framed | littledarwin/JavaRead.py:47 | a path is framed as `"/".join(["", path, ""])` |
| JavaRead.PackageMatches | littledarwin/JavaRead.py:36-47 | a package token selects a path when its stripped text is not blank and its pattern occurs in the framed path |
| JavaRead.TokenMatches | littledarwin/JavaRead.py:29-50 | a path token selects by plain substring, any other token through its framed pattern |
| JavaRead.MatchedSet | littledarwin/JavaRead.py:35-50 | `alteredList` as a set: the files some token selects |
| JavaRead.WhitelistSet | littledarwin/JavaRead.py:53 | a whitelist leaves the set of selected files |
| JavaRead.BlacklistSet | littledarwin/JavaRead.py:55 | a blacklist leaves the files of the list minus the selected ones |
| JavaRead.MatchedSetUnion | littledarwin/JavaRead.py:29-50 | the files selected by the whole token list are those selected by its package tokens together with those selected by its path tokens |
| JavaRead.ListOfSet | littledarwin/JavaRead.py:52-55 | `list(set(...))` yields each element of the set exactly once and nothing else |
| JavaRead.PackageMatchIsSegmentRun | littledarwin/JavaRead.py:35-47 | a package token selects a path if and only if it is not blank and its dot-separated components occur as consecutive whole segments of the path (directory segments and the file name alike) |
| JavaRead.PackageMatchesFramed | littledarwin/JavaRead.py:41-47 | a package token selects a path exactly when it is not blank and the framing of its components occurs in the framing of the path's segments |
| JavaRead.SegmentsSepFree | littledarwin/JavaRead.py:30-33 | the components of a package token, and the segments of a path, hold no `/` |
| JavaRead.PackageComponentsAreSegments | littledarwin/JavaRead.py:39-47 | no partial-name matches: every component of a selecting package token is a whole segment of the path |
| Segments.FrameOccurs | littledarwin/JavaRead.py:41-47 | the framed pattern `/t1/.../tk/` occurs in the framed path `/s1/.../sn/` if and only if `t` is a contiguous run of `s` |
| Segments.FramePrefix | littledarwin/JavaRead.py:41-47 | one framing is a prefix of another exactly when its segment list is a prefix of the other's |
| Segments.FrameIsJoin | littledarwin/JavaRead.py:41-45 | `"/".join([""] + segs + [""])` is the framing of the segments |
| Segments.FramedPath | littledarwin/JavaRead.py:47 | `"/".join(["", path, ""])` is the framing of the path's own `/`-separated segments |
| JavaRead.PathTokenMatchIsSubstring | littledarwin/JavaRead.py:49-50 | a path token selects a path if and only if it occurs in the path at some index |
| JavaRead.BlankTokenMatchesNothing | littledarwin/JavaRead.py:36-37 | a whitespace-only token is a package token and selects nothing |
| JavaRead.FilterComplement | littledarwin/JavaRead.py:52-55 | the whitelist result lies within the files, is disjoint from the blacklist result, and the two together are all the files |
| JavaRead.EmptyTokenList | littledarwin/JavaRead.py:52-55 | an empty (non-`None`) token list whitelists nothing and blacklists nothing away |
| JavaRead.JavaRead.ListFiles | littledarwin/JavaRead.py:57-69 | records the source and results roots, appends the discovered files to the old list before filtering it as `FilterFiles` does, adds the results root to the directories and leaves file contents alone |
| JavaRead.AppendWalk | littledarwin/JavaRead.py:62-64 | the walk loop leaves the old list followed by every discovered path, directory by directory, in listing order |
| JavaRead.Discovered | littledarwin/JavaRead.py:62-64 | the discovered paths are exactly the `root/name` joins of the walk's names ending in the suffix, and all end in it |
| JavaRead.MatchingPaths | littledarwin/JavaRead.py:63-64 | the paths contributed by one walk step are exactly the joins of its names that end in the suffix |
| JavaRead.PathJoin | littledarwin/JavaRead.py:60-64 | `os.path.join(a, b)`: `b` alone when it is absolute, else `a` and `b` with one separator between them; the result ends in `b` |
| JavaRead.ResultsDir | littledarwin/JavaRead.py:60 | the results root is `os.path.join(buildPath, "LittleDarwinResults")` |
| JavaRead.EndsWith | littledarwin/JavaRead.py:63 | the glob `*<suffix>` selects exactly the names ending in the suffix |
| JavaRead.JavaRead.GenerateNewFile | littledarwin/JavaRead.py:77-105 | the mutant number is the first free one of the files before the call; the new file system is the old one with the original preserved, the report written for a non-empty map and the mutant stored; the mirror directory is added; the returned path joined to the results root is the mutant's path |
| JavaRead.RelativeTo | littledarwin/JavaRead.py:80-82 | `os.path.relpath` of a file below a directory is the text after the directory and its separator |
| JavaRead.MirrorDir | littledarwin/JavaRead.py:80-82 | the mirror directory is the results root joined with the original's directory relative to the source root and with its file name |
| JavaRead.OriginalCopyPath | littledarwin/JavaRead.py:86-87 | the preserved original is `original.java` in the mirror directory |
| JavaRead.DensityPath | littledarwin/JavaRead.py:90 | the report is `density.csv` in the mirror directory |
| JavaRead.MutantPath | littledarwin/JavaRead.py:96-99 | mutant number `n` is `str(n) + ".java"` in the mirror directory |
| JavaRead.IsFirstFree | littledarwin/JavaRead.py:95-97 | `n` is the scan's answer: `n >= 1`, `n.java` absent, and `1.java` ... `(n-1).java` present |
| JavaRead.DensityOf | littledarwin/JavaRead.py:78-79 | a missing density map is the empty map |
| JavaRead.WithOriginal | littledarwin/JavaRead.py:84-87 | the files after preserving the original: unchanged if `original.java` is there, else with the original's text copied to it |
| JavaRead.WithDensity | littledarwin/JavaRead.py:89-93 | the files after the report: unchanged for an empty map, else with `density.csv` holding the map's report |
| JavaRead.AfterWrite | littledarwin/JavaRead.py:84-101 | the files after one write: original preserved, report written, then the data stored under the given number |
| JavaRead.WriteFiles | littledarwin/JavaRead.py:84-101 | the three writes of one mutant leave the old files with the original preserved, the report written for a non-empty map and the data under the number that was first free before any of them; the mirror directory is added |
| JavaRead.PreserveOriginal | littledarwin/JavaRead.py:84-87 | creates the mirror directory and copies the original into it only when no copy is there |
| JavaRead.WriteDensity | littledarwin/JavaRead.py:89-93 | the report file is replaced by the rows of the map, keys ascending |
| JavaRead.DensityText | littledarwin/JavaRead.py:91-93 | the text written is the report of the map: one `key,count` row per key, keys ascending, each ended by a newline |
| JavaRead.WriteMutant | littledarwin/JavaRead.py:95-101 | the data goes to the first free mutant number of the directory and nothing else changes |
| JavaRead.FirstFreeIndex | littledarwin/JavaRead.py:95-97 | the scan returns `n >= 1` with `n.java` absent and `1.java` ... `(n-1).java` present |
| JavaRead.FirstFreeUnique | littledarwin/JavaRead.py:95-97 | the first free number is determined by the file set |
| JavaRead.NextMutantKeepsNumberingContiguous | littledarwin/JavaRead.py:95-101 | when exactly `1.java` ... `c.java` exist the next mutant is `c+1`, after which exactly `1.java` ... `(c+1).java` exist |
| JavaRead.MutantPathIsNotReserved | littledarwin/JavaRead.py:86-99 | a mutant path is never `original.java` nor `density.csv` |
| JavaRead.MutantPathInjective | littledarwin/JavaRead.py:96-99 | different numbers give different mutant paths |
| JavaRead.MirrorDirInjective | littledarwin/JavaRead.py:80-82 | distinct originals below the source root get distinct mirror directories |
| JavaRead.MutantRelPath | littledarwin/JavaRead.py:99-105 | helper for `GenerateNewFile`: the relative path built from the original's relative path and the number, joined to the results root, is the mutant's path |
| JavaRead.PrecedingWritesKeepNumbering | littledarwin/JavaRead.py:84-97 | preserving the original and writing the report change no mutant path, so the scan finds the number it would have found before them |
| JavaRead.WriteEffects | littledarwin/JavaRead.py:84-101 | for a number that is first free before the write: afterwards it holds the data; the copy of the original is the earlier one if there was one, else the original's text; the report holds the map's rows when the map is non-empty |
| JavaRead.WritePaths | littledarwin/JavaRead.py:84-101 | the paths after a write are the earlier ones plus the copy, the mutant and, for a non-empty map, the report |
| JavaRead.WriteKeepsOthers | littledarwin/JavaRead.py:84-101 | a write overwrites no earlier file except the report, and that only for a non-empty map |
| JavaRead.WriteNumbering | littledarwin/JavaRead.py:95-101 | after a write the mutant numbers in use are the earlier ones plus the new one |
| JavaRead.GenerateTwice | littledarwin/JavaRead.py:84-101 | two writes for a fresh original leave one copy of it, equal to the original's text, and the mutants `1.java` and `2.java` with their data, and no other mutant |
| JavaRead.Ascending | littledarwin/JavaRead.py:92 | `sorted` of a set of keys is strictly increasing and lists exactly the set |
| JavaRead.AscendingUnique | littledarwin/JavaRead.py:92 | any strictly increasing listing of the set is `sorted` of it |
| JavaRead.DensityRoundTrip | littledarwin/JavaRead.py:89-93 | reading `density.csv` back gives one `(line, count)` pair per key, in ascending key order, each with the map's count |
| JavaRead.DensityLinesSplit | littledarwin/JavaRead.py:92-93 | the report splits on newlines into one row per key and an empty tail |
| JavaRead.ParsedRow | littledarwin/JavaRead.py:92-93 | row `i` of the report reads back as key `i` of the listing and its count |
| JavaRead.ParseRowRoundTrip | littledarwin/JavaRead.py:93 | a row `str(k) + "," + str(v)` reads back as `(k, v)` |
| JavaRead.DensityRow | littledarwin/JavaRead.py:93 | one report row is `str(key) + "," + str(count)` |
| JavaRead.DensityCsv | littledarwin/JavaRead.py:91-93 | the report is one newline-ended row per key, keys in `sorted` order |
| PyStrings.StripSpec | littledarwin/JavaRead.py:36 | `strip` removes exactly the leading and trailing whitespace, is empty exactly for whitespace-only text, and otherwise starts and ends with a non-space |
| PyStrings.Strip | littledarwin/JavaRead.py:36 | `str.strip()` as `lstrip` then `rstrip` over Python's `isspace` characters |
| PyStrings.IsSpace | littledarwin/JavaRead.py:36 | the characters Python's `str.isspace()` accepts, which `strip()` removes |
| PyStrings.StripKeepsAbsent | littledarwin/JavaRead.py:43 | stripping adds no character |
| PyStrings.JoinSplit | littledarwin/JavaRead.py:43-45 | joining the pieces of `s.split(sep)` with `sep` gives `s` back |
| PyStrings.SplitJoin | littledarwin/JavaRead.py:43-45 | splitting a join of separator-free pieces gives the pieces back |
| PyStrings.SplitPieces | littledarwin/JavaRead.py:43 | no piece of a split holds the separator, and every piece's characters come from the input |
| PyStrings.SplitAppend | littledarwin/JavaRead.py:43 | the pieces of `a + b` are those of `a` and `b` with the boundary pieces fused |
| PyStrings.Split | littledarwin/JavaRead.py:43 | `s.split(sep)` for one separator character: the texts between separators, in order; never an empty list |
| PyStrings.Join | littledarwin/JavaRead.py:45-47 | `sep.join(parts)`: the parts with `sep` between neighbours |
| PyStrings.ContainsAt | littledarwin/JavaRead.py:47 | the substring test holds exactly when the pattern occurs at some index |
| PyStrings.Contains | littledarwin/JavaRead.py:47-50 | the substring test `p in s` |
| PyStrings.IntStrRoundTrip | littledarwin/JavaRead.py:93 | `int(str(i)) == i` for every integer |
| PyStrings.IntStrInjective | littledarwin/JavaRead.py:96 | distinct integers have distinct decimal texts |
| PyStrings.IntToStr | littledarwin/JavaRead.py:93-96 | `str(i)`: the decimal digits, after a minus sign for a negative number |

## Left out

- `getFileContent` (`littledarwin/JavaRead.py:71-75`): file reading with codec substitution is I/O and text decoding; file contents are plain strings here.
- The real directory traversal and the general `fnmatch` glob: the walk is an input sequence, the glob a suffix test; `os.makedirs` is a set insertion that does not model parent directories.
- `os.path` normalisation: `abspath`, `relpath` and `os.sep` are replaced by normalised paths and the separator `/`; `IsUnder` states that the original lies below the source root.
- The verbose trace (`littledarwin/JavaRead.py:103-104`): the constructor always sets `verbose` to `False`, so the trace never fires and the field is not modelled.
- Concurrency: the scan-then-write race between concurrent writers of the same original is not modelled; calls are sequential.
- File-system errors (missing original, permissions, full disk) are not modelled; `GenerateNewFile` requires that the original or its copy exists.
- JavaRead.JavaRead.FilterFiles: a `filterList` that is not a list is excluded by the type `Option<seq<string>>` rather than by a failing assertion.
- JavaRead.ListOfSet: the order of `list(set(...))` is left open, as `JavaRead.py` relies on no particular order of a Python set.
- JavaRead.ParseDensity is a reader written for the round-trip lemma; `JavaRead.py` has no reader of `density.csv`.
- The tests (`tests/test_LittleDarwin.py`) and the rest of LittleDarwin (parser, mutation operators, build runner) are not part of this model.
