/** LittleDarwin's `JavaRead` (littledarwin/JavaRead.py): the bookkeeping of
    the set of Java files to mutate and of the mirrored output tree.

    - Discovery (`listFiles`) appends every `*.java` file of a walk of the
      source tree to `fileList` and records the source and results roots.
    - Filtering (`filterFiles`) narrows `fileList` by a whitelist or a
      blacklist of package names (`com.example.foo`) and path fragments
      (anything with a `/` or `\`).
    - Output writing (`generateNewFile`) mirrors an original file under the
      results root as a directory holding `original.java` (copied once),
      an optional `density.csv` and the mutants `1.java`, `2.java`, ...

    The file system is a `FileSystem` object: a map from path to text and a
    set of directories. The separator is `/` and paths are normalised. */
module JavaRead {
  import opened PyStrings
  import opened Segments

  datatype Option<T> = None | Some(value: T)

  /** Name of the results root created under the build path. */
  const ResultsDirName: string := "LittleDarwinResults"
  /** Name of the preserved copy of the original inside its mirror directory. */
  const OriginalName: string := "original.java"
  /** Name of the per-line mutant density report. */
  const DensityName: string := "density.csv"
  /** Extension of every numbered mutant. */
  const MutantExtension: string := ".java"

  function Elements(xs: seq<string>): set<string> {
    set x | x in xs
  }

  predicate NoDuplicates(xs: seq<string>) {
    forall i, j :: 0 <= i < j < |xs| ==> xs[i] != xs[j]
  }

  predicate EndsWith(s: string, suffix: string) {
    |suffix| <= |s| && s[|s| - |suffix|..] == suffix
  }

  // ---------------------------------------------------------------------
  // Filtering

  /** A filter token naming a file by a path fragment rather than a package. */
  predicate IsPathToken(tok: string) {
    '/' in tok || '\\' in tok
  }

  /** The separator-framed directory pattern built for a package token:
      `"/".join([""] + tok.strip().split(".") + [""])`. */
  function PackagePattern(tok: string): string {
    Join([""] + Split(Strip(tok), '.') + [""], "/")
  }

  /** A file path framed by separators: `"/".join(["", path, ""])`. */
  function Framed(path: string): string {
    Join(["", path, ""], "/")
  }

  /** Whether a non-blank package token selects a path. */
  predicate PackageMatches(tok: string, path: string) {
    Strip(tok) != "" && Contains(Framed(path), PackagePattern(tok))
  }

  /** Whether one filter token selects a path: a path token by plain
      substring, a package token through its framed pattern. */
  predicate TokenMatches(tok: string, path: string) {
    if IsPathToken(tok) then Contains(path, tok) else PackageMatches(tok, path)
  }

  predicate AnyTokenMatches(tokens: seq<string>, path: string) {
    exists t :: t in tokens && TokenMatches(t, path)
  }

  /** The files of `files` that some token selects (`alteredList` in `JavaRead.py`,
      as a set). */
  function MatchedSet(files: seq<string>, tokens: seq<string>): set<string> {
    set x | x in files && AnyTokenMatches(tokens, x)
  }

  /** The file set a whitelist leaves. */
  function WhitelistSet(files: seq<string>, tokens: seq<string>): set<string> {
    MatchedSet(files, tokens)
  }

  /** The file set a blacklist leaves. */
  function BlacklistSet(files: seq<string>, tokens: seq<string>): set<string> {
    Elements(files) - MatchedSet(files, tokens)
  }

  /** A list comprehension `[x for x in xs if keep(x)]`. */
  function Select(xs: seq<string>, keep: string -> bool): (r: seq<string>)
    ensures |r| <= |xs|
    ensures forall x :: x in r <==> x in xs && keep(x)
  {
    if xs == [] then []
    else (if keep(xs[0]) then [xs[0]] else []) + Select(xs[1..], keep)
  }

  /** `list(s)` for a set: its elements once each, in an order of the
      method's choosing. */
  method ListOfSet(s: set<string>) returns (r: seq<string>)
    ensures NoDuplicates(r)
    ensures Elements(r) == s
  {
    r := [];
    var rest := s;
    while rest != {}
      invariant NoDuplicates(r)
      invariant Elements(r) !! rest
      invariant Elements(r) + rest == s
      decreases |rest|
    {
      HasElement(rest);
      var x :| x in rest;
      r := r + [x];
      rest := rest - {x};
    }
  }

  /** A package token selects a path exactly when it is not blank and the
      framing of its components occurs in the framing of the path's
      segments. */
  lemma PackageMatchesFramed(tok: string, path: string)
    requires !IsPathToken(tok)
    ensures TokenMatches(tok, path) ==
              (Strip(tok) != "" && Contains(Frame(Split(path, '/')), Frame(Split(Strip(tok), '.'))))
  {
    FrameIsJoin(Split(Strip(tok), '.'));
    FramedPath(path);
  }

  /** The components of a package token and the segments of a path hold no
      separator. */
  lemma SegmentsSepFree(tok: string, path: string)
    requires !IsPathToken(tok)
    ensures SepFree(Split(Strip(tok), '.')) && SepFree(Split(path, '/'))
  {
    var t := Split(Strip(tok), '.');
    SplitPieces(Strip(tok), '.');
    SplitPieces(path, '/');
    StripKeepsAbsent(tok, '/');
    forall i | 0 <= i < |t| ensures '/' !in t[i] {
      forall k | 0 <= k < |t[i]| ensures t[i][k] != '/' {
        assert t[i][k] in Strip(tok);
      }
    }
  }

  /** A package token selects a path exactly when its dot-separated
      components occur as consecutive whole segments of the path (the file
      name included); a blank token selects nothing. */
  lemma PackageMatchIsSegmentRun(tok: string, path: string)
    requires !IsPathToken(tok)
    ensures TokenMatches(tok, path) <==>
              Strip(tok) != "" && exists j :: RunAt(Split(Strip(tok), '.'), Split(path, '/'), j)
  {
    PackageMatchesFramed(tok, path);
    SegmentsSepFree(tok, path);
    FrameOccurs(Split(Strip(tok), '.'), Split(path, '/'));
  }

  /** No partial-name matches: every component of a package token that
      selects a path is a whole segment of that path, so `com.example.foo`
      does not select `com/example/foobar/A.java`: the component `foo`
      matches only a whole segment `foo`. */
  lemma PackageComponentsAreSegments(tok: string, path: string)
    requires !IsPathToken(tok)
    ensures TokenMatches(tok, path) ==>
              forall i :: 0 <= i < |Split(Strip(tok), '.')| ==> Split(Strip(tok), '.')[i] in Split(path, '/')
  {
    PackageMatchIsSegmentRun(tok, path);
    var t := Split(Strip(tok), '.');
    var s := Split(path, '/');
    if TokenMatches(tok, path) {
      var j :| RunAt(t, s, j);
      forall i | 0 <= i < |t| ensures t[i] in s {
        assert t[i] == s[j..][i] == s[j + i];
      }
    }
  }

  /** A path token selects a path exactly when it occurs in it verbatim. */
  lemma PathTokenMatchIsSubstring(tok: string, path: string)
    requires IsPathToken(tok)
    ensures TokenMatches(tok, path) <==> exists i :: OccursAt(path, tok, i)
  {
    ContainsAt(path, tok);
  }

  /** A whitespace-only (or empty) token is a package token that selects
      nothing. */
  lemma BlankTokenMatchesNothing(tok: string, path: string)
    requires AllSpace(tok)
    ensures !IsPathToken(tok)
    ensures !TokenMatches(tok, path)
  {
    BlankHasNoSeparator(tok);
    StripSpec(tok);
    assert Strip(tok) == "";
  }

  lemma BlankHasNoSeparator(tok: string)
    requires AllSpace(tok)
    ensures '/' !in tok && '\\' !in tok
  {
    assert !IsSpace('/') && !IsSpace('\\');
    forall k | 0 <= k < |tok| ensures tok[k] != '/' && tok[k] != '\\' {
      assert IsSpace(tok[k]);
    }
  }

  /** The whitelist keeps only files of the list, and the whitelist and the
      blacklist results partition the files. */
  lemma FilterComplement(files: seq<string>, tokens: seq<string>)
    ensures WhitelistSet(files, tokens) <= Elements(files)
    ensures WhitelistSet(files, tokens) !! BlacklistSet(files, tokens)
    ensures WhitelistSet(files, tokens) + BlacklistSet(files, tokens) == Elements(files)
  {
  }

  /** An empty token list selects nothing: whitelisting empties the list,
      blacklisting keeps every file. */
  lemma EmptyTokenList(files: seq<string>)
    ensures WhitelistSet(files, []) == {}
    ensures BlacklistSet(files, []) == Elements(files)
  {
  }

  /** A comprehension whose test is a token's match keeps exactly the files
      that token selects. */
  lemma SelectElements(files: seq<string>, keep: string -> bool, tok: string)
    requires forall x :: keep(x) == TokenMatches(tok, x)
    ensures Elements(Select(files, keep)) == SelectedBy(files, tok)
  {
  }

  /** One token's pass: appending the files it selects to those selected by
      the earlier tokens gives those selected by the longer list. A blank
      package token selects nothing, so skipping it appends nothing. */
  lemma MatchStep(files: seq<string>, done: seq<string>, tok: string, altered: seq<string>, selected: seq<string>)
    requires Elements(altered) == MatchedSet(files, done)
    requires !IsPathToken(tok) && Strip(tok) == "" ==> selected == []
    requires !(!IsPathToken(tok) && Strip(tok) == "") ==> Elements(selected) == SelectedBy(files, tok)
    ensures Elements(altered + selected) == MatchedSet(files, done + [tok])
  {
    MatchedSetSnoc(files, done, tok);
    ElementsAppend(altered, selected);
  }

  lemma ElementsAppend(a: seq<string>, b: seq<string>)
    ensures Elements(a + b) == Elements(a) + Elements(b)
  {
  }

  /** The files one token selects. */
  function SelectedBy(files: seq<string>, tok: string): set<string> {
    set x | x in files && TokenMatches(tok, x)
  }

  lemma MatchedSetSnoc(files: seq<string>, tokens: seq<string>, tok: string)
    ensures MatchedSet(files, tokens + [tok]) == MatchedSet(files, tokens) + SelectedBy(files, tok)
  {
    forall x | x in MatchedSet(files, tokens + [tok])
      ensures x in MatchedSet(files, tokens) + SelectedBy(files, tok)
    {
      var t :| t in tokens + [tok] && TokenMatches(t, x);
      if t != tok {
        assert t in tokens;
      }
    }
    forall x | x in MatchedSet(files, tokens) ensures x in MatchedSet(files, tokens + [tok]) {
      var t :| t in tokens && TokenMatches(t, x);
      assert t in tokens + [tok];
    }
    forall x | x in SelectedBy(files, tok) ensures x in MatchedSet(files, tokens + [tok]) {
      assert tok in tokens + [tok];
    }
  }

  /** Matching against a token list only depends on which tokens it holds,
      so it can be split between the package tokens and the path tokens. */
  lemma MatchedSetUnion(files: seq<string>, tokens: seq<string>, a: seq<string>, b: seq<string>)
    requires forall t :: t in tokens <==> t in a || t in b
    ensures MatchedSet(files, tokens) == MatchedSet(files, a) + MatchedSet(files, b)
  {
    forall x | x in MatchedSet(files, tokens) ensures x in MatchedSet(files, a) + MatchedSet(files, b) {
      var t :| t in tokens && TokenMatches(t, x);
      if t in a {
        assert AnyTokenMatches(a, x);
      } else {
        assert AnyTokenMatches(b, x);
      }
    }
    forall x | x in MatchedSet(files, a) + MatchedSet(files, b) ensures x in MatchedSet(files, tokens) {
      if x in MatchedSet(files, a) {
        var t :| t in a && TokenMatches(t, x);
        assert t in tokens;
      } else {
        var t :| t in b && TokenMatches(t, x);
        assert t in tokens;
      }
    }
  }

  /** The first pass over the filter list: path tokens (holding `/` or `\`)
      go to `cuList`, all others to `packageList`, in their order. */
  method PartitionTokens(tokens: seq<string>) returns (packageList: seq<string>, cuList: seq<string>)
    ensures forall t :: t in cuList ==> IsPathToken(t)
    ensures forall t :: t in packageList ==> !IsPathToken(t)
    ensures forall t :: t in tokens <==> t in packageList || t in cuList
  {
    packageList, cuList := [], [];
    for i := 0 to |tokens|
      invariant forall t :: t in cuList ==> IsPathToken(t)
      invariant forall t :: t in packageList ==> !IsPathToken(t)
      invariant forall t :: t in tokens[..i] <==> t in packageList || t in cuList
    {
      assert tokens[..i + 1] == tokens[..i] + [tokens[i]];
      if IsPathToken(tokens[i]) {
        cuList := cuList + [tokens[i]];
      } else {
        packageList := packageList + [tokens[i]];
      }
    }
    assert tokens[..|tokens|] == tokens;
  }

  /** The package pass: for every non-blank package token, the files whose
      framed path contains the token's framed pattern. */
  method CollectPackageMatches(files: seq<string>, packageList: seq<string>) returns (alteredList: seq<string>)
    requires forall t :: t in packageList ==> !IsPathToken(t)
    ensures Elements(alteredList) == MatchedSet(files, packageList)
  {
    alteredList := [];
    for j := 0 to |packageList|
      invariant Elements(alteredList) == MatchedSet(files, packageList[..j])
    {
      var packageName := packageList[j];
      assert packageList[..j + 1] == packageList[..j] + [packageName];
      if Strip(packageName) == "" {
        MatchStep(files, packageList[..j], packageName, alteredList, []);
        assert alteredList + [] == alteredList;
        continue;
      }
      var dirList := [""] + Split(Strip(packageName), '.') + [""];
      var dirName := Join(dirList, "/");
      var keep := x => Contains(Framed(x), dirName);
      var selected := Select(files, keep);
      SelectElements(files, keep, packageName);
      MatchStep(files, packageList[..j], packageName, alteredList, selected);
      alteredList := alteredList + selected;
    }
    assert packageList[..|packageList|] == packageList;
  }

  /** The path pass: appends, for every path token, the files containing it
      verbatim. */
  method CollectPathMatches(files: seq<string>, cuList: seq<string>, altered0: seq<string>)
      returns (alteredList: seq<string>)
    requires forall t :: t in cuList ==> IsPathToken(t)
    ensures Elements(alteredList) == Elements(altered0) + MatchedSet(files, cuList)
  {
    alteredList := altered0;
    for j := 0 to |cuList|
      invariant Elements(alteredList) == Elements(altered0) + MatchedSet(files, cuList[..j])
    {
      var cuName := cuList[j];
      assert cuList[..j + 1] == cuList[..j] + [cuName];
      var keep := x => Contains(x, cuName);
      var selected := Select(files, keep);
      SelectElements(files, keep, cuName);
      MatchedSetSnoc(files, cuList[..j], cuName);
      ElementsAppend(alteredList, selected);
      alteredList := alteredList + selected;
    }
    assert cuList[..|cuList|] == cuList;
  }

  // ---------------------------------------------------------------------
  // Discovery

  /** One step of a directory walk: a directory and the names of the files
      directly in it. */
  datatype WalkEntry = WalkEntry(root: string, filenames: seq<string>)

  /** `os.path.join(a, b)` for two components. */
  function PathJoin(a: string, b: string): (r: string)
    ensures EndsWith(r, b)
  {
    if b != [] && b[0] == '/' then b
    else if a == [] || a[|a| - 1] == '/' then a + b
    else a + "/" + b
  }

  /** The results root `<buildPath>/LittleDarwinResults`. */
  function ResultsDir(buildPath: string): string {
    PathJoin(buildPath, ResultsDirName)
  }

  /** The paths `root/name` of the names matching the glob `*<suffix>`, in
      the order of `names`. */
  function MatchingPaths(root: string, names: seq<string>, suffix: string): (r: seq<string>)
    ensures forall p :: p in r ==> EndsWith(p, suffix)
    ensures forall p :: p in r <==>
              exists j :: 0 <= j < |names| && EndsWith(names[j], suffix) && p == PathJoin(root, names[j])
  {
    if names == [] then []
    else
      var last := names[|names| - 1];
      var front := MatchingPaths(root, names[..|names| - 1], suffix);
      assert forall j :: 0 <= j < |names| - 1 ==> names[..|names| - 1][j] == names[j];
      if EndsWith(last, suffix) then
        EndsWithTrans(PathJoin(root, last), last, suffix);
        front + [PathJoin(root, last)]
      else front
  }

  lemma EndsWithTrans(s: string, t: string, suffix: string)
    requires EndsWith(s, t) && EndsWith(t, suffix)
    ensures EndsWith(s, suffix)
  {
    assert s[|s| - |suffix|..] == s[|s| - |t|..][|t| - |suffix|..];
  }

  /** Every path a walk contributes, walk step by walk step. */
  function Discovered(walk: seq<WalkEntry>, suffix: string): (r: seq<string>)
    ensures forall p :: p in r ==> EndsWith(p, suffix)
    ensures forall p :: p in r <==>
              exists i :: 0 <= i < |walk| && p in MatchingPaths(walk[i].root, walk[i].filenames, suffix)
  {
    if walk == [] then []
    else
      var front := Discovered(walk[..|walk| - 1], suffix);
      assert forall i :: 0 <= i < |walk| - 1 ==> walk[..|walk| - 1][i] == walk[i];
      var last := walk[|walk| - 1];
      front + MatchingPaths(last.root, last.filenames, suffix)
  }

  // ---------------------------------------------------------------------
  // Output writing

  /** `file` lies strictly below the directory `dir` and is not itself a
      directory path. */
  predicate IsUnder(file: string, dir: string) {
    |file| > |dir| + 1 && file[..|dir|] == dir && file[|dir|] == '/' && file[|file| - 1] != '/'
  }

  /** `os.path.relpath(file, dir)` for a file below `dir`. */
  function RelativeTo(file: string, dir: string): string
    requires IsUnder(file, dir)
  {
    file[|dir| + 1..]
  }

  /** The mirror directory of an original: the results root joined with the
      original's directory relative to the source root and with the
      original's own name, which for normalised paths is the results root
      followed by the original's relative path. */
  function MirrorDir(target: string, source: string, file: string): string
    requires IsUnder(file, source)
  {
    target + "/" + RelativeTo(file, source)
  }

  function OriginalCopyPath(dir: string): string {
    dir + "/" + OriginalName
  }

  function DensityPath(dir: string): string {
    dir + "/" + DensityName
  }

  /** The path of the `k`-th mutant, `<dir>/<k>.java`. */
  function MutantPath(dir: string, k: int): string {
    dir + "/" + IntToStr(k) + MutantExtension
  }

  /** Distinct originals below one source root get distinct mirror
      directories, so their outputs never meet. */
  lemma MirrorDirInjective(target: string, source: string, f: string, g: string)
    requires IsUnder(f, source) && IsUnder(g, source)
    requires MirrorDir(target, source, f) == MirrorDir(target, source, g)
    ensures f == g
  {
    var prefix := target + "/";
    assert RelativeTo(f, source) == MirrorDir(target, source, f)[|prefix|..];
    assert RelativeTo(g, source) == MirrorDir(target, source, g)[|prefix|..];
    assert f == f[..|source| + 1] + RelativeTo(f, source);
    assert g == g[..|source| + 1] + RelativeTo(g, source);
    assert f[..|source| + 1] == source + "/" == g[..|source| + 1];
  }

  /** Different numbers give different mutant paths. */
  lemma MutantPathInjective(dir: string, j: int, k: int)
    requires MutantPath(dir, j) == MutantPath(dir, k)
    ensures j == k
  {
    var a, b := IntToStr(j), IntToStr(k);
    var x, y := MutantPath(dir, j), MutantPath(dir, k);
    var lo := |dir| + 1;
    assert |a| == |b|;
    assert x[lo..lo + |a|] == a;
    assert y[lo..lo + |b|] == b;
    IntStrInjective(j, k);
  }

  /** A mutant path is never the preserved original nor the density report. */
  lemma MutantPathIsNotReserved(dir: string, k: int)
    requires k >= 1
    ensures MutantPath(dir, k) != OriginalCopyPath(dir)
    ensures MutantPath(dir, k) != DensityPath(dir)
  {
    var i := |dir| + 1;
    PositiveStrIsDigits(k);
    assert MutantPath(dir, k)[i] == IntToStr(k)[0];
    assert OriginalCopyPath(dir)[i] == 'o';
    assert DensityPath(dir)[i] == 'd';
  }

  /** `n` is the smallest positive number whose mutant file is absent. */
  predicate IsFirstFree(files: set<string>, dir: string, n: int) {
    n >= 1 && MutantPath(dir, n) !in files && forall k :: 1 <= k < n ==> MutantPath(dir, k) in files
  }

  /** The mutant paths numbered 1 to n. */
  function MutantPaths(dir: string, n: nat): (r: set<string>)
    ensures |r| == n
    ensures forall k :: 1 <= k <= n ==> MutantPath(dir, k) in r
    ensures forall k :: k > n ==> MutantPath(dir, k) !in r
  {
    if n == 0 then {}
    else
      var r := MutantPaths(dir, n - 1);
      assert forall k :: k > n ==> MutantPath(dir, k) != MutantPath(dir, n) by {
        forall k | k > n ensures MutantPath(dir, k) != MutantPath(dir, n) {
          if MutantPath(dir, k) == MutantPath(dir, n) {
            MutantPathInjective(dir, k, n);
          }
        }
      }
      r + {MutantPath(dir, n)}
  }

  lemma {:induction false} MutantPathsWithin(files: set<string>, dir: string, n: nat)
    requires forall k :: 1 <= k <= n ==> MutantPath(dir, k) in files
    ensures MutantPaths(dir, n) <= files
  {
    if n > 0 {
      MutantPathsWithin(files, dir, n - 1);
    }
  }

  lemma SubsetCard(a: set<string>, b: set<string>)
    requires a <= b
    ensures |a| <= |b|
  {
    assert b == a + (b - a);
    assert a !! (b - a);
  }

  /** The scan for the next mutant number: count up from 1 while the
      numbered file exists. */
  method FirstFreeIndex(files: map<string, string>, dir: string) returns (n: int)
    ensures IsFirstFree(files.Keys, dir, n)
  {
    n := 1;
    while MutantPath(dir, n) in files
      invariant n >= 1
      invariant forall k :: 1 <= k < n ==> MutantPath(dir, k) in files
      invariant n - 1 <= |files.Keys|
      decreases |files.Keys| - (n - 1)
    {
      MutantPathsWithin(files.Keys, dir, n);
      SubsetCard(MutantPaths(dir, n), files.Keys);
      n := n + 1;
    }
  }

  /** The scan's answer is determined by the file set. */
  lemma FirstFreeUnique(files: set<string>, dir: string, n: int, n': int)
    requires IsFirstFree(files, dir, n) && IsFirstFree(files, dir, n')
    ensures n == n'
  {
  }

  /** Numbering without gaps is kept: when exactly `1.java` .. `c.java`
      exist, the next mutant is `c+1`, after which exactly `1.java` ..
      `(c+1).java` exist. */
  lemma NextMutantKeepsNumberingContiguous(files: set<string>, dir: string, c: nat)
    requires forall k :: k >= 1 ==> (MutantPath(dir, k) in files <==> k <= c)
    ensures IsFirstFree(files, dir, c + 1)
    ensures forall k :: k >= 1 ==> (MutantPath(dir, k) in files + {MutantPath(dir, c + 1)} <==> k <= c + 1)
  {
    forall k | k >= 1 && MutantPath(dir, k) == MutantPath(dir, c + 1) ensures k == c + 1 {
      MutantPathInjective(dir, k, c + 1);
    }
  }

  /** Keys in strictly ascending order. */
  predicate Increasing(ks: seq<int>) {
    forall i, j :: 0 <= i < j < |ks| ==> ks[i] < ks[j]
  }

  predicate IsMin(m: int, s: set<int>) {
    m in s && forall y :: y in s ==> m <= y
  }

  /** A non-empty set has an element. */
  lemma HasElement<T>(s: set<T>)
    requires s != {}
    ensures exists x :: x in s
  {
    if forall x :: x !in s {
      assert false;
    }
  }

  lemma {:induction false} MinExists(s: set<int>)
    requires s != {}
    ensures exists m :: IsMin(m, s)
  {
    if forall y :: y !in s {
      assert false;
    }
    var x :| x in s;
    var rest := s - {x};
    if rest == {} {
      forall y | y in s ensures x <= y {
        assert y !in rest;
      }
      assert IsMin(x, s);
    } else {
      MinExists(rest);
      var m :| IsMin(m, rest);
      var least := if x < m then x else m;
      forall y | y in s ensures least <= y {
        if y != x {
          assert y in rest;
        }
      }
      assert IsMin(least, s);
    }
  }

  /** `sorted(s)` for a set of integers. */
  function Ascending(s: set<int>): (r: seq<int>)
    ensures Increasing(r)
    ensures |r| == |s|
    ensures forall x :: x in r <==> x in s
    decreases |s|
  {
    if s == {} then []
    else
      MinExists(s);
      var m :| IsMin(m, s);
      var rest := Ascending(s - {m});
      AscendingCons(m, rest, s);
      [m] + rest
  }

  lemma AscendingCons(m: int, rest: seq<int>, s: set<int>)
    requires IsMin(m, s)
    requires Increasing(rest) && |rest| == |s - {m}|
    requires forall x :: x in rest <==> x in s - {m}
    ensures Increasing([m] + rest) && |[m] + rest| == |s|
    ensures forall x :: x in [m] + rest <==> x in s
  {
    forall i | 0 <= i < |rest| ensures m < rest[i] {
      assert rest[i] in rest;
    }
  }

  /** The first of a strictly ascending listing is the set's minimum, and
      the rest lists the remaining elements. */
  lemma IncreasingSplit(ks: seq<int>, s: set<int>)
    requires ks != [] && Increasing(ks)
    requires forall x :: x in ks <==> x in s
    ensures IsMin(ks[0], s)
    ensures Increasing(ks[1..])
    ensures forall x :: x in ks[1..] <==> x in s - {ks[0]}
  {
    forall y | y in s ensures ks[0] <= y {
      var i :| 0 <= i < |ks| && ks[i] == y;
    }
    forall x ensures x in ks[1..] <==> x in s - {ks[0]} {
      if x in ks[1..] {
        var i :| 0 <= i < |ks[1..]| && ks[1..][i] == x;
        assert ks[i + 1] == x;
      }
      if x in s - {ks[0]} {
        var i :| 0 <= i < |ks| && ks[i] == x;
        assert ks[1..][i - 1] == x;
      }
    }
  }

  lemma AscendingOfMin(s: set<int>, m: int)
    requires IsMin(m, s)
    ensures Ascending(s) == [m] + Ascending(s - {m})
  {
  }

  /** Any strictly ascending listing of a set is `sorted` of it. */
  lemma {:induction false} AscendingUnique(ks: seq<int>, s: set<int>)
    requires Increasing(ks)
    requires forall x :: x in ks <==> x in s
    ensures ks == Ascending(s)
    decreases |ks|
  {
    if ks == [] {
      forall x ensures x !in s {
        assert x !in ks;
      }
      assert s == {};
    } else {
      IncreasingSplit(ks, s);
      var rest := s - {ks[0]};
      AscendingUnique(ks[1..], rest);
      AscendingOfMin(s, ks[0]);
      assert ks == [ks[0]] + ks[1..];
    }
  }

  /** One line of the density report, `<line>,<count>`, without its newline. */
  function DensityRow(k: int, v: int): string {
    IntToStr(k) + "," + IntToStr(v)
  }

  /** The report text for the keys `ks` in that order. */
  function DensityLines(ks: seq<int>, m: map<int, int>): string
    requires forall k :: k in ks ==> k in m
  {
    if ks == [] then ""
    else DensityLines(ks[..|ks| - 1], m) + DensityRow(ks[|ks| - 1], m[ks[|ks| - 1]]) + "\n"
  }

  lemma DensityLinesStep(ks: seq<int>, m: map<int, int>, i: int)
    requires forall k :: k in ks ==> k in m
    requires 0 <= i < |ks|
    ensures DensityLines(ks[..i + 1], m) == DensityLines(ks[..i], m) + DensityRow(ks[i], m[ks[i]]) + "\n"
  {
    assert ks[..i + 1][..i] == ks[..i];
  }

  /** The content of `density.csv` for a density map: its keys ascending. */
  function DensityCsv(m: map<int, int>): string {
    DensityLines(Ascending(m.Keys), m)
  }

  /** Reading `density.csv` back: one `(line, count)` pair per line. */
  function ParseDensity(text: string): seq<(int, int)> {
    var lines := Split(text, '\n');
    seq(|lines| - 1, i requires 0 <= i < |lines| - 1 => ParseRow(lines[i]))
  }

  function ParseRow(line: string): (int, int) {
    var cells := Split(line, ',');
    (StrToInt(cells[0]), if |cells| > 1 then StrToInt(cells[1]) else 0)
  }

  lemma IntStrHasNoSeparators(i: int)
    ensures ',' !in IntToStr(i) && '\n' !in IntToStr(i)
  {
    var s := NatToStr(if i < 0 then -i else i);
    forall k | 0 <= k < |s| ensures s[k] != ',' && s[k] != '\n' {
      assert '0' <= s[k] <= '9';
    }
    if i < 0 {
      assert IntToStr(i) == "-" + s;
    }
  }

  lemma ParseRowRoundTrip(k: int, v: int)
    ensures ParseRow(DensityRow(k, v)) == (k, v)
  {
    var a, b := IntToStr(k), IntToStr(v);
    IntStrHasNoSeparators(k);
    IntStrHasNoSeparators(v);
    SplitNoSep(b, ',');
    SplitEndSep(a, ',');
    SplitAppend(a + ",", b, ',');
    assert "" + b == b;
    assert Split(a + "," + b, ',') == [a, b];
    IntStrRoundTrip(k);
    IntStrRoundTrip(v);
  }

  /** The rows of the report for `ks`, without their newlines. */
  function Rows(ks: seq<int>, m: map<int, int>): seq<string>
    requires forall k :: k in ks ==> k in m
  {
    if ks == [] then [] else Rows(ks[..|ks| - 1], m) + [DensityRow(ks[|ks| - 1], m[ks[|ks| - 1]])]
  }

  lemma {:induction false} RowsLength(ks: seq<int>, m: map<int, int>)
    requires forall k :: k in ks ==> k in m
    ensures |Rows(ks, m)| == |ks|
  {
    if ks != [] {
      RowsLength(ks[..|ks| - 1], m);
    }
  }

  /** Row `i` of the report parses back to key `i` and its count. */
  lemma {:induction false} ParsedRow(ks: seq<int>, m: map<int, int>, i: int)
    requires forall k :: k in ks ==> k in m
    requires 0 <= i < |ks|
    ensures |Rows(ks, m)| == |ks| && ParseRow(Rows(ks, m)[i]) == (ks[i], m[ks[i]])
  {
    var front := ks[..|ks| - 1];
    RowsLength(ks, m);
    RowsLength(front, m);
    if i == |ks| - 1 {
      ParseRowRoundTrip(ks[i], m[ks[i]]);
    } else {
      ParsedRow(front, m, i);
      assert Rows(ks, m)[i] == Rows(front, m)[i];
    }
  }

  /** The lines of the report for `ks`: one row per key, then the empty
      piece after the final newline. */
  lemma {:induction false} DensityLinesSplit(ks: seq<int>, m: map<int, int>)
    requires forall k :: k in ks ==> k in m
    ensures Split(DensityLines(ks, m), '\n') == Rows(ks, m) + [""]
  {
    if ks != [] {
      var front := ks[..|ks| - 1];
      var k := ks[|ks| - 1];
      var row := DensityRow(k, m[k]);
      DensityLinesSplit(front, m);
      RowHasNoNewline(k, m[k]);
      LineAppend(DensityLines(front, m), Rows(front, m), row);
      assert DensityLines(ks, m) == DensityLines(front, m) + (row + "\n");
    }
  }

  lemma RowHasNoNewline(k: int, v: int)
    ensures '\n' !in DensityRow(k, v)
  {
    IntStrHasNoSeparators(k);
    IntStrHasNoSeparators(v);
  }

  /** Appending one newline-terminated line with no newline inside adds
      exactly that line to the pieces of a newline-terminated text. */
  lemma LineAppend(text: string, lines: seq<string>, row: string)
    requires Split(text, '\n') == lines + [""]
    requires '\n' !in row
    ensures Split(text + (row + "\n"), '\n') == lines + [row] + [""]
  {
    SplitEndSep(row, '\n');
    SplitAppend(text, row + "\n", '\n');
    assert "" + row == row;
    assert Fuse(lines + [""], [row, ""]) == lines + [row] + [""];
  }

  /** `density.csv` reads back as the density map's entries in ascending
      key order, one per key. */
  lemma DensityRoundTrip(m: map<int, int>)
    ensures |ParseDensity(DensityCsv(m))| == |m.Keys|
    ensures forall i :: 0 <= i < |ParseDensity(DensityCsv(m))| ==>
              var ks := Ascending(m.Keys); ParseDensity(DensityCsv(m))[i] == (ks[i], m[ks[i]])
  {
    var ks := Ascending(m.Keys);
    DensityLinesSplit(ks, m);
    RowsLength(ks, m);
    forall i | 0 <= i < |ks| ensures ParseDensity(DensityCsv(m))[i] == (ks[i], m[ks[i]]) {
      ParsedRow(ks, m, i);
    }
  }

  // ---------------------------------------------------------------------
  // The file system and the JavaRead object

  /** The density map the writer uses: none counts as empty. */
  function DensityOf(mutantsPerLine: Option<map<int, int>>): map<int, int> {
    if mutantsPerLine.Some? then mutantsPerLine.value else map[]
  }

  /** The files after the original is preserved in `dir`: copied only when
      no copy is there yet. */
  function WithOriginal(files: map<string, string>, dir: string, originalFile: string): map<string, string>
    requires OriginalCopyPath(dir) in files || originalFile in files
  {
    if OriginalCopyPath(dir) in files then files
    else files[OriginalCopyPath(dir) := files[originalFile]]
  }

  /** The files after the density report of `m` is written, when `m` is
      non-empty. */
  function WithDensity(files: map<string, string>, dir: string, m: map<int, int>): map<string, string> {
    if m == map[] then files else files[DensityPath(dir) := DensityCsv(m)]
  }

  /** The files after one mutant is written as number `n`. */
  function AfterWrite(files: map<string, string>, dir: string, originalFile: string,
                      m: map<int, int>, n: int, data: string): map<string, string>
    requires OriginalCopyPath(dir) in files || originalFile in files
  {
    WithDensity(WithOriginal(files, dir, originalFile), dir, m)[MutantPath(dir, n) := data]
  }

  /** Preserving the original and writing the report touch no mutant path,
      so the scan after them finds the number it would have found before. */
  lemma PrecedingWritesKeepNumbering(files: map<string, string>, dir: string, originalFile: string,
                                     m: map<int, int>, n: int)
    requires OriginalCopyPath(dir) in files || originalFile in files
    requires IsFirstFree(WithDensity(WithOriginal(files, dir, originalFile), dir, m).Keys, dir, n)
    ensures IsFirstFree(files.Keys, dir, n)
  {
    var after := WithDensity(WithOriginal(files, dir, originalFile), dir, m);
    forall k | k >= 1 ensures MutantPath(dir, k) in after <==> MutantPath(dir, k) in files {
      MutantPathIsNotReserved(dir, k);
    }
  }

  /** The returned relative path, joined to the results root, is the
      mutant's path. */
  lemma MutantRelPath(target: string, r: string, k: int)
    ensures target + "/" + (r + "/" + IntToStr(k) + MutantExtension) == MutantPath(target + "/" + r, k)
  {
  }

  /** What one write leaves behind: the new mutant under its number, the
      original's copy (the earlier one if there was one), and the report when
      the map is non-empty. `WriteKeepsOthers` states that nothing else
      changes. */
  lemma WriteEffects(files: map<string, string>, dir: string, originalFile: string,
                     m: map<int, int>, n: int, data: string)
    requires OriginalCopyPath(dir) in files || originalFile in files
    requires IsFirstFree(files.Keys, dir, n)
    ensures AfterWrite(files, dir, originalFile, m, n, data)[MutantPath(dir, n)] == data
    ensures AfterWrite(files, dir, originalFile, m, n, data)[OriginalCopyPath(dir)] ==
              if OriginalCopyPath(dir) in files then files[OriginalCopyPath(dir)] else files[originalFile]
    ensures m != map[] ==> AfterWrite(files, dir, originalFile, m, n, data)[DensityPath(dir)] == DensityCsv(m)
  {
    MutantPathIsNotReserved(dir, n);
    ReservedNamesDiffer(dir);
  }

  /** A write overwrites no earlier file except the report, and that one
      only for a non-empty map. */
  lemma WriteKeepsOthers(files: map<string, string>, dir: string, originalFile: string,
                         m: map<int, int>, n: int, data: string)
    requires OriginalCopyPath(dir) in files || originalFile in files
    requires IsFirstFree(files.Keys, dir, n)
    ensures forall p :: p in files && (m == map[] || p != DensityPath(dir)) ==>
              AfterWrite(files, dir, originalFile, m, n, data)[p] == files[p]
  {
  }

  /** The paths present after one write: the earlier ones, the original's
      copy, the new mutant and, for a non-empty map, the report. */
  lemma WritePaths(files: map<string, string>, dir: string, originalFile: string,
                   m: map<int, int>, n: int, data: string)
    requires OriginalCopyPath(dir) in files || originalFile in files
    ensures forall p :: p in AfterWrite(files, dir, originalFile, m, n, data) <==>
              p in files || p == OriginalCopyPath(dir) || p == MutantPath(dir, n)
              || (m != map[] && p == DensityPath(dir))
  {
    var w := WithOriginal(files, dir, originalFile);
    assert forall p :: p in w <==> p in files || p == OriginalCopyPath(dir);
    var d := WithDensity(w, dir, m);
    assert forall p :: p in d <==> p in w || (m != map[] && p == DensityPath(dir));
  }

  lemma ReservedNamesDiffer(dir: string)
    ensures OriginalCopyPath(dir) != DensityPath(dir)
  {
    assert OriginalCopyPath(dir)[|dir| + 1] == 'o';
    assert DensityPath(dir)[|dir| + 1] == 'd';
  }

  /** After one write the mutant numbers in use are the earlier ones and the
      new one. */
  lemma WriteNumbering(files: map<string, string>, dir: string, originalFile: string,
                       m: map<int, int>, n: int, data: string)
    requires OriginalCopyPath(dir) in files || originalFile in files
    requires IsFirstFree(files.Keys, dir, n)
    ensures forall k :: k >= 1 ==>
              (MutantPath(dir, k) in AfterWrite(files, dir, originalFile, m, n, data) <==>
               MutantPath(dir, k) in files || k == n)
  {
    var after := AfterWrite(files, dir, originalFile, m, n, data);
    forall k | k >= 1 ensures MutantPath(dir, k) in after <==> MutantPath(dir, k) in files || k == n {
      MutantPathIsNotReserved(dir, k);
      if MutantPath(dir, k) == MutantPath(dir, n) {
        MutantPathInjective(dir, k, n);
      }
    }
  }

  /** The file system: the text of every file by path, and the directories. */
  class FileSystem {
    var files: map<string, string>
    var dirs: set<string>

    constructor (files: map<string, string>, dirs: set<string>)
      ensures this.files == files && this.dirs == dirs
    {
      this.files := files;
      this.dirs := dirs;
    }
  }

  class JavaRead {
    var sourceDirectory: Option<string>
    var targetDirectory: Option<string>
    var fileList: seq<string>

    constructor ()
      ensures sourceDirectory == None && targetDirectory == None && fileList == []
    {
      sourceDirectory := None;
      targetDirectory := None;
      fileList := [];
    }

    /** Narrows `fileList` by the tokens of `filterList`: with `None` the
        list is untouched; otherwise it becomes the files some token selects
        (whitelist) or the others (blacklist), once each. */
    method FilterFiles(mode: string, filterList: Option<seq<string>>)
      requires filterList.Some? ==> mode == "blacklist" || mode == "whitelist"
      modifies this`fileList
      ensures filterList.None? ==> fileList == old(fileList)
      ensures filterList.Some? ==> NoDuplicates(fileList)
      ensures filterList.Some? && mode == "whitelist" ==>
                Elements(fileList) == WhitelistSet(old(fileList), filterList.value)
      ensures filterList.Some? && mode == "blacklist" ==>
                Elements(fileList) == BlacklistSet(old(fileList), filterList.value)
    {
      if filterList.None? {
        return;
      }
      var files, tokens := fileList, filterList.value;
      var packageList, cuList := PartitionTokens(tokens);
      var alteredList := CollectPackageMatches(files, packageList);
      alteredList := CollectPathMatches(files, cuList, alteredList);
      MatchedSetUnion(files, tokens, packageList, cuList);

      if mode == "whitelist" {
        var result := ListOfSet(Elements(alteredList));
        fileList := result;
      } else if mode == "blacklist" {
        var result := ListOfSet(Elements(files) - Elements(alteredList));
        fileList := result;
      }
    }

    /** Records the source root and the results root, appends every file of
        the walk whose name ends in `suffix` (the glob `*<suffix>`), filters
        the list, and creates the results root if it is missing. */
    method ListFiles(fs: FileSystem, targetPath: string, buildPath: string, walk: seq<WalkEntry>,
                     filterList: Option<seq<string>>, filterType: string, suffix: string)
      requires filterList.Some? ==> filterType == "blacklist" || filterType == "whitelist"
      modifies this, fs`dirs
      ensures sourceDirectory == Some(targetPath)
      ensures targetDirectory == Some(ResultsDir(buildPath))
      ensures filterList.None? ==> fileList == old(fileList) + Discovered(walk, suffix)
      ensures filterList.Some? ==> NoDuplicates(fileList)
      ensures filterList.Some? && filterType == "whitelist" ==>
                Elements(fileList) == WhitelistSet(old(fileList) + Discovered(walk, suffix), filterList.value)
      ensures filterList.Some? && filterType == "blacklist" ==>
                Elements(fileList) == BlacklistSet(old(fileList) + Discovered(walk, suffix), filterList.value)
      ensures fs.dirs == old(fs.dirs) + {ResultsDir(buildPath)}
      ensures fs.files == old(fs.files)
    {
      sourceDirectory := Some(targetPath);
      targetDirectory := Some(ResultsDir(buildPath));

      fileList := AppendWalk(fileList, walk, suffix);

      FilterFiles(filterType, filterList);

      var target := targetDirectory.value;
      if target !in fs.dirs {
        fs.dirs := fs.dirs + {target};
      }
    }

    /** Writes one mutant of `originalFile`: creates its mirror directory,
        preserves the original there once, rewrites `density.csv` when the
        density map is non-empty, and stores `fileData` under the first free
        number. Returns the mutant's path relative to the results root. */
    method GenerateNewFile(fs: FileSystem, originalFile: string, fileData: string,
                           mutantsPerLine: Option<map<int, int>>) returns (rel: string, ghost n: int)
      requires sourceDirectory.Some? && targetDirectory.Some?
      requires IsUnder(originalFile, sourceDirectory.value)
      requires OriginalCopyPath(MirrorDir(targetDirectory.value, sourceDirectory.value, originalFile)) in fs.files
               || originalFile in fs.files
      modifies fs
      ensures IsFirstFree(old(fs.files).Keys, MirrorDir(targetDirectory.value, sourceDirectory.value, originalFile), n)
      ensures fs.files == AfterWrite(old(fs.files), MirrorDir(targetDirectory.value, sourceDirectory.value, originalFile),
                                     originalFile, DensityOf(mutantsPerLine), n, fileData)
      ensures fs.dirs == old(fs.dirs) + {MirrorDir(targetDirectory.value, sourceDirectory.value, originalFile)}
      ensures rel == RelativeTo(originalFile, sourceDirectory.value) + "/" + IntToStr(n) + MutantExtension
      ensures targetDirectory.value + "/" + rel
              == MutantPath(MirrorDir(targetDirectory.value, sourceDirectory.value, originalFile), n)
    {
      var source, target := sourceDirectory.value, targetDirectory.value;
      var targetDir := MirrorDir(target, source, originalFile);
      var counter := WriteFiles(fs, targetDir, originalFile, DensityOf(mutantsPerLine), fileData);
      n := counter;
      rel := RelativeTo(originalFile, source) + "/" + IntToStr(counter) + MutantExtension;
      MutantRelPath(target, RelativeTo(originalFile, source), counter);
    }
  }

  /** The writes of one mutant into `dir`: the preserved original, the
      report when `m` is non-empty, and the mutant under the first number
      free before any of them. */
  method WriteFiles(fs: FileSystem, dir: string, originalFile: string, m: map<int, int>, data: string)
      returns (counter: int)
    requires OriginalCopyPath(dir) in fs.files || originalFile in fs.files
    modifies fs
    ensures IsFirstFree(old(fs.files).Keys, dir, counter)
    ensures fs.files == AfterWrite(old(fs.files), dir, originalFile, m, counter, data)
    ensures fs.dirs == old(fs.dirs) + {dir}
  {
    ghost var files0 := fs.files;
    PreserveOriginal(fs, dir, originalFile);
    if m != map[] {
      WriteDensity(fs, dir, m);
    }
    ghost var files2 := fs.files;
    assert files2 == WithDensity(WithOriginal(files0, dir, originalFile), dir, m);
    counter := WriteMutant(fs, dir, data);
    PrecedingWritesKeepNumbering(files0, dir, originalFile, m, counter);
  }

  /** Creates the mirror directory if missing and copies the original into
      it unless a copy is already there. */
  method PreserveOriginal(fs: FileSystem, dir: string, originalFile: string)
    requires OriginalCopyPath(dir) in fs.files || originalFile in fs.files
    modifies fs
    ensures fs.files == WithOriginal(old(fs.files), dir, originalFile)
    ensures fs.dirs == old(fs.dirs) + {dir}
  {
    if dir !in fs.dirs {
      fs.dirs := fs.dirs + {dir};
    }
    var originalCopy := OriginalCopyPath(dir);
    if originalCopy !in fs.files {
      fs.files := fs.files[originalCopy := fs.files[originalFile]];
    }
  }

  /** Stores `data` under the first free mutant number of `dir`. */
  method WriteMutant(fs: FileSystem, dir: string, data: string) returns (counter: int)
    modifies fs`files
    ensures IsFirstFree(old(fs.files).Keys, dir, counter)
    ensures fs.files == old(fs.files)[MutantPath(dir, counter) := data]
  {
    counter := FirstFreeIndex(fs.files, dir);
    var targetFile := MutantPath(dir, counter);
    fs.files := fs.files[targetFile := data];
  }

  /** Writes `density.csv` in `dir`. */
  method WriteDensity(fs: FileSystem, dir: string, m: map<int, int>)
    modifies fs`files
    ensures fs.files == old(fs.files)[DensityPath(dir) := DensityCsv(m)]
  {
    var densityFile := DensityPath(dir);
    var text := DensityText(m);
    fs.files := fs.files[densityFile := text];
  }

  /** Builds the report text: one `<line>,<count>` row per key of `m`, keys
      ascending, each row ended by a newline. */
  method DensityText(m: map<int, int>) returns (text: string)
    ensures text == DensityCsv(m)
  {
    var keys := Ascending(m.Keys);
    text := "";
    for i := 0 to |keys|
      invariant text == DensityLines(keys[..i], m)
    {
      DensityLinesStep(keys, m, i);
      text := text + DensityRow(keys[i], m[keys[i]]) + "\n";
    }
    assert keys[..|keys|] == keys;
  }

  /** Appends to `list` every file of the walk whose name ends in `suffix`,
      directory by directory and in each directory in listing order. */
  method AppendWalk(list: seq<string>, walk: seq<WalkEntry>, suffix: string) returns (r: seq<string>)
    ensures r == list + Discovered(walk, suffix)
  {
    r := list;
    for i := 0 to |walk|
      invariant r == list + Discovered(walk[..i], suffix)
    {
      var root, filenames := walk[i].root, walk[i].filenames;
      assert walk[..i + 1][..i] == walk[..i];
      for j := 0 to |filenames|
        invariant r == list + Discovered(walk[..i], suffix) + MatchingPaths(root, filenames[..j], suffix)
      {
        var filename := filenames[j];
        assert filenames[..j + 1][..j] == filenames[..j];
        if EndsWith(filename, suffix) {
          r := r + [PathJoin(root, filename)];
        }
      }
      assert filenames[..|filenames|] == filenames;
    }
    assert walk[..|walk|] == walk;
  }

  /** Two writes for the same fresh original: the preserved original is the
      one copied by the first write and is not touched by the second, and
      the two mutants are `1.java` and `2.java`. */
  method GenerateTwice(jr: JavaRead, fs: FileSystem, originalFile: string, data1: string, data2: string)
      returns (rel1: string, rel2: string)
    requires jr.sourceDirectory.Some? && jr.targetDirectory.Some?
    requires IsUnder(originalFile, jr.sourceDirectory.value)
    requires originalFile in fs.files
    requires var d := MirrorDir(jr.targetDirectory.value, jr.sourceDirectory.value, originalFile);
             OriginalCopyPath(d) !in fs.files && forall k :: k >= 1 ==> MutantPath(d, k) !in fs.files
    modifies fs
    ensures var d := MirrorDir(jr.targetDirectory.value, jr.sourceDirectory.value, originalFile);
            var base := RelativeTo(originalFile, jr.sourceDirectory.value);
            && OriginalCopyPath(d) in fs.files && fs.files[OriginalCopyPath(d)] == old(fs.files)[originalFile]
            && rel1 == base + "/1.java" && rel2 == base + "/2.java"
            && MutantPath(d, 1) in fs.files && fs.files[MutantPath(d, 1)] == data1
            && MutantPath(d, 2) in fs.files && fs.files[MutantPath(d, 2)] == data2
            && forall k :: k >= 3 ==> MutantPath(d, k) !in fs.files
  {
    var d := MirrorDir(jr.targetDirectory.value, jr.sourceDirectory.value, originalFile);
    ghost var files0 := fs.files;
    ghost var n1, n2;
    rel1, n1 := jr.GenerateNewFile(fs, originalFile, data1, None);
    assert n1 == 1 by {
      FirstFreeUnique(files0.Keys, d, n1, 1);
    }
    ghost var files1 := fs.files;
    WritePaths(files0, d, originalFile, map[], 1, data1);
    WriteEffects(files0, d, originalFile, map[], 1, data1);
    WriteKeepsOthers(files0, d, originalFile, map[], 1, data1);
    WriteNumbering(files0, d, originalFile, map[], 1, data1);

    rel2, n2 := jr.GenerateNewFile(fs, originalFile, data2, None);
    assert n2 == 2 by {
      assert IsFirstFree(files1.Keys, d, 2);
      FirstFreeUnique(files1.Keys, d, n2, 2);
    }
    WritePaths(files1, d, originalFile, map[], 2, data2);
    WriteEffects(files1, d, originalFile, map[], 2, data2);
    WriteKeepsOthers(files1, d, originalFile, map[], 2, data2);
    WriteNumbering(files1, d, originalFile, map[], 2, data2);
    assert IntToStr(1) == "1" && IntToStr(2) == "2";
  }
}
