/** `localizable_files`: the source files the generator processes, as listed by `find`,
    without those under an excluded folder, in ascending order. The POSIX path functions it
    relies on (`os.path.join`, `os.path.commonpath`) are modelled with their semantics. */
module Files {
  import opened Common
  import opened Text
  import opened Sorting

  // ---------------------------------------------------------------------------------------
  // POSIX paths

  /** `os.path.isabs` as `commonpath` tests it: the path starts with `/`. */
  predicate IsAbsolute(p: string) {
    |p| > 0 && p[0] == '/'
  }

  /** `os.path.join(a, b)` with one component: an absolute `b` replaces `a`; otherwise a `/`
      is inserted unless `a` is empty or already ends with one. */
  function PathJoin(a: string, b: string): (r: string)
    ensures IsAbsolute(b) ==> r == b
    ensures !IsAbsolute(b) ==> StartsWith(r, a) && EndsWith(r, b) && |a| + |b| <= |r| <= |a| + |b| + 1
  {
    if IsAbsolute(b) then b
    else if a == [] || a[|a| - 1] == '/' then a + b
    else a + "/" + b
  }

  /** The components `commonpath` keeps: empty ones and `.` are dropped. */
  function Meaningful(parts: seq<string>): (r: seq<string>)
    ensures forall c :: c in r <==> c in parts && c != "" && c != "."
  {
    if parts == [] then []
    else (if parts[0] == "" || parts[0] == "." then [] else [parts[0]]) + Meaningful(parts[1..])
  }

  /** The components of a path: `p.split("/")` without empty and `.` components. */
  function Components(p: string): (r: seq<string>)
    ensures forall c :: c in r ==> c != "" && '/' !in c
  {
    var parts := Split(p, '/');
    assert forall c :: c in parts ==> '/' !in c;
    Meaningful(parts)
  }

  /** Python's `<` on lists of strings: the first differing element decides, and a proper
      prefix is smaller. */
  predicate ListLt(a: seq<string>, b: seq<string>) {
    if a == [] then b != []
    else if b == [] then false
    else LexLt(a[0], b[0]) || (a[0] == b[0] && ListLt(a[1..], b[1..]))
  }

  lemma {:induction false} ListLtTotal(a: seq<string>, b: seq<string>)
    ensures ListLt(a, b) || a == b || ListLt(b, a)
  {
    if a != [] && b != [] {
      LexLtTotal(a[0], b[0]);
      if a[0] == b[0] {
        ListLtTotal(a[1..], b[1..]);
        if a[1..] == b[1..] {
          assert a == [a[0]] + a[1..] && b == [b[0]] + b[1..];
        }
      }
    }
  }

  lemma {:induction false} ListLtAsymmetric(a: seq<string>, b: seq<string>)
    ensures !(ListLt(a, b) && ListLt(b, a))
  {
    if a != [] && b != [] {
      if LexLt(a[0], b[0]) {
        LexLtAsymmetric(a[0], b[0]);
      } else if LexLt(b[0], a[0]) {
        LexLtAsymmetric(b[0], a[0]);
      } else {
        ListLtAsymmetric(a[1..], b[1..]);
      }
    }
  }

  /** The loop of `commonpath` over the smaller component list `s1`: keep its components
      until the first one that differs from the larger list `s2`. */
  function ScanCommon(s1: seq<string>, s2: seq<string>): (r: seq<string>)
    requires !ListLt(s2, s1)
  {
    if s1 == [] then []
    else if s1[0] != s2[0] then []
    else [s1[0]] + ScanCommon(s1[1..], s2[1..])
  }

  /** The longest common prefix of two component lists. */
  function CommonPrefix(a: seq<string>, b: seq<string>): (r: seq<string>)
    ensures r <= a && r <= b
    ensures |r| < |a| && |r| < |b| ==> a[|r|] != b[|r|]
  {
    if a == [] || b == [] || a[0] != b[0] then []
    else [a[0]] + CommonPrefix(a[1..], b[1..])
  }

  /** A path put back together from its components. */
  function Render(absolute: bool, parts: seq<string>): string {
    (if absolute then "/" else "") + Join(parts, '/')
  }

  /** `os.path.commonpath([a, b])`: an error when one path is absolute and the other is
      not; otherwise the components shared by the smaller and the larger component list,
      joined, with a leading `/` for absolute paths. */
  function CommonPath(a: string, b: string): (r: Result<string>)
    ensures r.Err? <==> IsAbsolute(a) != IsAbsolute(b)
    ensures r.Err? ==> r.error == MixedAbsoluteAndRelativePaths
  {
    if IsAbsolute(a) != IsAbsolute(b) then Err(MixedAbsoluteAndRelativePaths)
    else
      var ca := Components(a);
      var cb := Components(b);
      ListLtTotal(ca, cb);
      ListLtAsymmetric(ca, cb);
      var s1 := if ListLt(cb, ca) then cb else ca;
      var s2 := if ListLt(ca, cb) then cb else ca;
      Ok(Render(IsAbsolute(a), ScanCommon(s1, s2)))
  }

  /** The scan over the smaller list finds the common prefix. */
  lemma {:induction false} ScanCommonPrefix(s1: seq<string>, s2: seq<string>)
    requires !ListLt(s2, s1)
    ensures ScanCommon(s1, s2) == CommonPrefix(s1, s2)
  {
    if s1 != [] && s1[0] == s2[0] {
      ScanCommonPrefix(s1[1..], s2[1..]);
    }
  }

  lemma {:induction false} CommonPrefixSymmetric(a: seq<string>, b: seq<string>)
    ensures CommonPrefix(a, b) == CommonPrefix(b, a)
  {
    if a != [] && b != [] && a[0] == b[0] {
      CommonPrefixSymmetric(a[1..], b[1..]);
    }
  }

  /** `commonpath` of two paths of the same kind is their longest common component prefix,
      whichever order they come in. */
  lemma CommonPathPrefix(a: string, b: string)
    requires IsAbsolute(a) == IsAbsolute(b)
    ensures CommonPath(a, b) == Ok(Render(IsAbsolute(a), CommonPrefix(Components(a), Components(b))))
  {
    var ca := Components(a);
    var cb := Components(b);
    ListLtTotal(ca, cb);
    ListLtAsymmetric(ca, cb);
    CommonPrefixSymmetric(ca, cb);
    if ListLt(cb, ca) {
      ScanCommonPrefix(cb, ca);
    } else if ListLt(ca, cb) {
      ScanCommonPrefix(ca, cb);
    } else {
      ScanCommonPrefix(ca, ca);
    }
  }

  lemma {:induction false} CommonPrefixWhole(a: seq<string>, b: seq<string>)
    ensures CommonPrefix(a, b) == a <==> a <= b
  {
    if a != [] && b != [] && a[0] == b[0] {
      CommonPrefixWhole(a[1..], b[1..]);
      assert a == [a[0]] + a[1..] && b == [b[0]] + b[1..];
    }
  }

  /** A joined list starts with its first part and ends with its last. */
  lemma {:induction false} JoinEnds(parts: seq<string>, sep: char)
    requires |parts| > 0
    ensures StartsWith(Join(parts, sep), parts[0])
    ensures EndsWith(Join(parts, sep), parts[|parts| - 1])
  {
    if |parts| > 1 {
      JoinEnds(parts[1..], sep);
      var rest := Join(parts[1..], sep);
      assert Join(parts, sep) == parts[0] + [sep] + rest;
      assert Join(parts, sep)[..|parts[0]|] == parts[0];
      assert Join(parts, sep)[|Join(parts, sep)| - |rest|..] == rest;
    }
  }

  lemma JoinEmpty(parts: seq<string>)
    requires forall c :: c in parts ==> c != ""
    ensures Join(parts, '/') == "" <==> parts == []
  {
    if parts != [] {
      JoinEnds(parts, '/');
      assert parts[0] in parts;
    }
  }

  /** Joining lists of non-empty components that contain no separator loses nothing. */
  lemma JoinInjective(x: seq<string>, y: seq<string>)
    requires forall c :: c in x ==> c != "" && '/' !in c
    requires forall c :: c in y ==> c != "" && '/' !in c
    requires Join(x, '/') == Join(y, '/')
    ensures x == y
  {
    JoinEmpty(x);
    JoinEmpty(y);
    if x != [] && y != [] {
      SplitJoin(x, '/');
      SplitJoin(y, '/');
    }
  }

  /** A rendered path ends with `/` only when it has no components. */
  lemma RenderEnd(absolute: bool, parts: seq<string>)
    requires forall c :: c in parts ==> c != "" && '/' !in c
    requires |Render(absolute, parts)| > 1
    ensures Render(absolute, parts)[|Render(absolute, parts)| - 1] != '/'
  {
    var last := parts[|parts| - 1];
    assert last in parts;
    JoinEnds(parts, '/');
    var r := Render(absolute, parts);
    assert r[|r| - |last|..] == last;
    assert r[|r| - 1] == last[|last| - 1];
  }

  // ---------------------------------------------------------------------------------------
  // Exclusions (files.py:41-51, 72-78)

  /** `os.path.commonpath([folder, path]) == folder` */
  function Excludes(folder: string, path: string): (r: Result<bool>)
    ensures r.Err? <==> IsAbsolute(folder) != IsAbsolute(path)
  {
    var common := CommonPath(folder, path);
    if common.Err? then Err(common.error) else Ok(common.value == folder)
  }

  /** A folder written in canonical form (no empty or `.` components, no trailing `/`)
      excludes exactly the paths whose components start with its own. */
  lemma ExcludesIffUnder(folder: string, path: string)
    requires folder == Render(IsAbsolute(folder), Components(folder))
    requires IsAbsolute(folder) == IsAbsolute(path)
    ensures Excludes(folder, path) == Ok(Components(folder) <= Components(path))
  {
    var cf := Components(folder);
    var common := CommonPrefix(cf, Components(path));
    CommonPathPrefix(folder, path);
    CommonPrefixWhole(cf, Components(path));
    assert forall c :: c in common ==> c in cf;
    var prefix := if IsAbsolute(folder) then "/" else "";
    if Render(IsAbsolute(folder), common) == folder {
      assert (prefix + Join(common, '/'))[|prefix|..] == Join(common, '/');
      assert (prefix + Join(cf, '/'))[|prefix|..] == Join(cf, '/');
      JoinInjective(common, cf);
    }
  }

  /** A folder written with a trailing `/` (longer than `/` itself) never equals the common
      path, so it excludes nothing. */
  lemma TrailingSlashExcludesNothing(folder: string, path: string)
    requires |folder| > 1 && folder[|folder| - 1] == '/'
    ensures Excludes(folder, path) != Ok(true)
  {
    if IsAbsolute(folder) == IsAbsolute(path) {
      CommonPathPrefix(folder, path);
      var common := CommonPrefix(Components(folder), Components(path));
      assert forall c :: c in common ==> c in Components(folder);
      if Render(IsAbsolute(folder), common) == folder {
        RenderEnd(IsAbsolute(folder), common);
      }
    }
  }

  /** A blank line of the exclusion file becomes the root followed by `/`: it excludes
      nothing unless the root is empty or `/`. */
  lemma BlankExclusionExcludesNothing(rootPath: string, path: string)
    requires rootPath != "" && rootPath != "/"
    ensures Excludes(PathJoin(rootPath, ""), path) != Ok(true)
  {
    var folder := PathJoin(rootPath, "");
    assert folder[|folder| - 1] == '/';
    TrailingSlashExcludesNothing(folder, path);
  }

  /** The inner loop of `localizable_files`: the first folder that excludes the path stops
      the search; `commonpath` raises before that when the kinds of path differ. */
  function IsExcluded(folders: seq<string>, path: string): (r: Result<bool>)
    ensures r == Ok(true) ==> exists i :: 0 <= i < |folders| && Excludes(folders[i], path) == Ok(true)
    ensures r == Ok(false) ==> forall i :: 0 <= i < |folders| ==> Excludes(folders[i], path) == Ok(false)
    ensures r.Err? ==> r.error == MixedAbsoluteAndRelativePaths
  {
    if folders == [] then Ok(false)
    else
      var first := Excludes(folders[0], path);
      if first.Err? then Err(first.error)
      else if first.value then Ok(true)
      else
        var rest := IsExcluded(folders[1..], path);
        assert forall i :: 1 <= i < |folders| ==> folders[i] == folders[1..][i - 1];
        rest
  }

  /** With folders and paths all of one kind, the search cannot fail, and a path is
      excluded exactly when some folder excludes it. */
  lemma {:induction false} IsExcludedSameKind(folders: seq<string>, path: string)
    requires forall f :: f in folders ==> IsAbsolute(f) == IsAbsolute(path)
    ensures IsExcluded(folders, path).Ok?
    ensures IsExcluded(folders, path).value <==> exists f :: f in folders && Excludes(f, path) == Ok(true)
  {
    if folders != [] {
      assert folders[0] in folders;
      assert forall f :: f in folders[1..] ==> f in folders;
      IsExcludedSameKind(folders[1..], path);
      assert forall f :: f in folders ==> f == folders[0] || f in folders[1..];
    }
  }

  /** `text.replace("\r\n", "\n").replace("\r", "\n")`: reading in text mode turns every
      line ending into `\n`. */
  function UniversalNewlines(text: string): string {
    Replace(Replace(text, "\r\n", "\n"), "\r", "\n")
  }

  /** The lines `readlines` returns, without their line endings: no line after a final
      line ending, none at all for an empty file. */
  function ReadLines(text: string): (r: seq<string>)
    ensures forall line :: line in r ==> '\n' !in line
  {
    var parts := Split(UniversalNewlines(text), '\n');
    if parts[|parts| - 1] == "" then parts[..|parts| - 1] else parts
  }

  /** `list(map(lambda x: x.strip(), exclusion_file.readlines()))` */
  function StrippedLines(text: string): (r: seq<string>)
    ensures |r| == |ReadLines(text)|
    ensures forall i :: 0 <= i < |r| ==> r[i] == Strip(ReadLines(text)[i])
  {
    var lines := ReadLines(text);
    seq(|lines|, i requires 0 <= i < |lines| => Strip(lines[i]))
  }

  /** `[os.path.join(root_path, folder) for folder in excluded_folders]` */
  function JoinedFolders(rootPath: string, folders: seq<string>): (r: seq<string>)
    ensures |r| == |folders|
    ensures forall i :: 0 <= i < |r| ==> r[i] == PathJoin(rootPath, folders[i])
  {
    seq(|folders|, i requires 0 <= i < |folders| => PathJoin(rootPath, folders[i]))
  }

  /** The excluded folders joined onto the root: none when neither a list nor an exclusion
      file is given, an error when both are; `exclusionFile` is the exclusion file's text. */
  function Exclusions(rootPath: string, excludedFolders: Option<seq<string>>, exclusionFile: Option<string>)
    : (r: Result<seq<string>>)
    ensures r.Err? <==> excludedFolders.Some? && exclusionFile.Some?
    ensures r.Err? ==> r.error == ConflictingExclusions
    ensures excludedFolders.None? && exclusionFile.None? ==> r == Ok([])
  {
    if excludedFolders.None? && exclusionFile.None? then Ok([])
    else if excludedFolders.Some? && exclusionFile.Some? then Err(ConflictingExclusions)
    else if exclusionFile.Some? then Ok(JoinedFolders(rootPath, StrippedLines(exclusionFile.value)))
    else Ok(JoinedFolders(rootPath, excludedFolders.value))
  }

  /** The lines of the `find` output that are kept, in order: empty lines are skipped and
      excluded paths dropped; the first failing `commonpath` is the error. */
  function Kept(folders: seq<string>, lines: seq<string>): (r: Result<seq<string>>)
  {
    if lines == [] then Ok([])
    else
      var init := Kept(folders, lines[..|lines| - 1]);
      var line := lines[|lines| - 1];
      if init.Err? then init
      else if line == "" then init
      else
        var excluded := IsExcluded(folders, line);
        if excluded.Err? then Err(excluded.error)
        else if excluded.value then init
        else Ok(init.value + [line])
  }

  /** `localizable_files`, as a value: the kept lines of the `find` output, sorted. */
  function Localizable(rootPath: string, excludedFolders: Option<seq<string>>, exclusionFile: Option<string>,
                       findOutput: string): Result<seq<string>>
  {
    var folders := Exclusions(rootPath, excludedFolders, exclusionFile);
    if folders.Err? then Err(folders.error)
    else
      var kept := Kept(folders.value, Split(UniversalNewlines(findOutput), '\n'));
      if kept.Err? then Err(kept.error) else Ok(Sort(kept.value, LexOrder()))
  }

  /** A line is kept exactly when it is non-empty and no folder excludes it. */
  lemma {:induction false} KeptMembers(folders: seq<string>, lines: seq<string>)
    requires Kept(folders, lines).Ok?
    ensures forall p :: p in Kept(folders, lines).value <==> p in lines && KeptLine(folders, p)
  {
    if lines != [] {
      var init := lines[..|lines| - 1];
      var line := lines[|lines| - 1];
      KeptLast(folders, lines);
      KeptMembers(folders, init);
      FilterStep(lines, p => KeptLine(folders, p), Kept(folders, init).value, Kept(folders, lines).value);
    }
  }

  /** The last line of the output is either dropped or appended to what the others kept. */
  lemma KeptLast(folders: seq<string>, lines: seq<string>)
    requires lines != [] && Kept(folders, lines).Ok?
    ensures var init := lines[..|lines| - 1];
      var line := lines[|lines| - 1];
      && Kept(folders, init).Ok?
      && Kept(folders, lines).value
        == if line == "" || IsExcluded(folders, line) == Ok(true) then Kept(folders, init).value
           else Kept(folders, init).value + [line]
  {
  }

  /** A line the filter keeps: non-empty and in no excluded folder. */
  predicate KeptLine(folders: seq<string>, p: string) {
    p != "" && IsExcluded(folders, p) == Ok(false)
  }

  /** Membership after one more element of a filtered sequence, from membership before it. */
  lemma FilterStep<T>(lines: seq<T>, keep: T -> bool, kept: seq<T>, result: seq<T>)
    requires lines != []
    requires forall p :: p in kept <==> p in lines[..|lines| - 1] && keep(p)
    requires result == if keep(lines[|lines| - 1]) then kept + [lines[|lines| - 1]] else kept
    ensures forall p :: p in result <==> p in lines && keep(p)
  {
    var init := lines[..|lines| - 1];
    assert lines == init + [lines[|lines| - 1]];
  }

  /** Lines of the output are each kept, dropped, or an error, and the error is always the
      one `commonpath` raises. */
  lemma {:induction false} KeptError(folders: seq<string>, lines: seq<string>)
    requires Kept(folders, lines).Err?
    ensures Kept(folders, lines).error == MixedAbsoluteAndRelativePaths
  {
    if lines != [] && Kept(folders, lines[..|lines| - 1]).Err? {
      KeptError(folders, lines[..|lines| - 1]);
    }
  }

  /** The result of `localizable_files` is in ascending order, and it holds exactly the
      non-empty lines of the `find` output that no excluded folder contains. */
  lemma LocalizableContents(rootPath: string, excludedFolders: Option<seq<string>>, exclusionFile: Option<string>,
                            findOutput: string)
    requires Localizable(rootPath, excludedFolders, exclusionFile, findOutput).Ok?
    ensures var r := Localizable(rootPath, excludedFolders, exclusionFile, findOutput).value;
      var folders := Exclusions(rootPath, excludedFolders, exclusionFile).value;
      && Sorted(r, LexOrder())
      && forall p :: p in r <==>
           p in Split(UniversalNewlines(findOutput), '\n') && p != "" && IsExcluded(folders, p) == Ok(false)
  {
    var folders := Exclusions(rootPath, excludedFolders, exclusionFile).value;
    var lines := Split(UniversalNewlines(findOutput), '\n');
    var kept := Kept(folders, lines).value;
    LexOrderTotal();
    SortSorted(kept, LexOrder());
    KeptMembers(folders, lines);
    var r := Sort(kept, LexOrder());
    forall p ensures p in r <==> p in kept {
      assert p in r <==> p in multiset(r);
      assert p in kept <==> p in multiset(kept);
    }
  }

  /** `localizable_files` fails only on conflicting arguments, or when `commonpath` is asked
      to compare an absolute with a relative path. */
  lemma LocalizableErrors(rootPath: string, excludedFolders: Option<seq<string>>, exclusionFile: Option<string>,
                          findOutput: string)
    requires Localizable(rootPath, excludedFolders, exclusionFile, findOutput).Err?
    ensures var e := Localizable(rootPath, excludedFolders, exclusionFile, findOutput).error;
      if excludedFolders.Some? && exclusionFile.Some? then e == ConflictingExclusions
      else e == MixedAbsoluteAndRelativePaths
  {
    var folders := Exclusions(rootPath, excludedFolders, exclusionFile);
    if folders.Ok? {
      KeptError(folders.value, Split(UniversalNewlines(findOutput), '\n'));
    }
  }

  /** Without exclusions, every non-empty line of the output is a result. */
  lemma {:induction false} NoExclusionsKeepsAll(lines: seq<string>)
    ensures Kept([], lines).Ok?
    ensures forall p :: p in Kept([], lines).value <==> p in lines && p != ""
  {
    if lines != [] {
      NoExclusionsKeepsAll(lines[..|lines| - 1]);
      assert lines == lines[..|lines| - 1] + [lines[|lines| - 1]];
    }
  }

  /** `localizable_files`. `exclusionFile` is the text of the exclusion file when one is
      given, and `findOutput` the output of the `find` command over the root. */
  method LocalizableFiles(rootPath: string, excludedFolders: Option<seq<string>>, exclusionFile: Option<string>,
                          findOutput: string)
    returns (r: Result<seq<string>>)
    ensures r == Localizable(rootPath, excludedFolders, exclusionFile, findOutput)
  {
    var folders: seq<string>;
    if excludedFolders.None? && exclusionFile.None? {
      folders := [];
    } else if excludedFolders.Some? && exclusionFile.Some? {
      return Err(ConflictingExclusions);
    } else if exclusionFile.Some? {
      folders := StrippedLines(exclusionFile.value);
    } else {
      folders := excludedFolders.value;
    }
    folders := JoinedFolders(rootPath, folders);
    assert Exclusions(rootPath, excludedFolders, exclusionFile) == Ok(folders);
    var lines := Split(UniversalNewlines(findOutput), '\n');
    var results := KeptLines(folders, lines);
    if results.Err? {
      return Err(results.error);
    }
    r := Ok(Sort(results.value, LexOrder()));
  }

  /** The loop of `localizable_files` over the lines of the `find` output, before sorting. */
  method KeptLines(folders: seq<string>, lines: seq<string>) returns (r: Result<seq<string>>)
    ensures r == Kept(folders, lines)
  {
    var results: seq<string> := [];
    for i := 0 to |lines|
      invariant Kept(folders, lines[..i]) == Ok(results)
    {
      var filePath := lines[i];
      KeptStep(folders, lines, i);
      if |filePath| == 0 {
        continue;
      }
      var isExcluded := ExcludedByAny(folders, filePath);
      if isExcluded.Err? {
        KeptPrefixError(folders, lines, i + 1);
        return Err(isExcluded.error);
      }
      if isExcluded.value {
        continue;
      }
      if |filePath| > 0 {
        results := results + [filePath];
      }
    }
    assert lines[..|lines|] == lines;
    r := Ok(results);
  }

  /** The inner loop of `localizable_files`: the first excluded folder that `commonpath`
      returns unchanged stops the search; a mixed absolute and relative pair raises. */
  method ExcludedByAny(folders: seq<string>, filePath: string) returns (r: Result<bool>)
    ensures r == IsExcluded(folders, filePath)
  {
    for j := 0 to |folders|
      invariant IsExcluded(folders, filePath) == IsExcluded(folders[j..], filePath)
    {
      var common := CommonPath(folders[j], filePath);
      assert folders[j..][1..] == folders[j + 1..];
      if common.Err? {
        return Err(common.error);
      }
      if common.value == folders[j] {
        return Ok(true);
      }
    }
    return Ok(false);
  }

  /** One step of `Kept` over the lines, read front to back. */
  lemma KeptStep(folders: seq<string>, lines: seq<string>, i: nat)
    requires i < |lines|
    ensures Kept(folders, lines[..i + 1]) ==
      var init := Kept(folders, lines[..i]);
      if init.Err? || lines[i] == "" then init
      else
        var excluded := IsExcluded(folders, lines[i]);
        if excluded.Err? then Err(excluded.error)
        else if excluded.value then init
        else Ok(init.value + [lines[i]])
  {
    assert lines[..i + 1][..i] == lines[..i];
  }

  /** An error on some line is the error of the whole output. */
  lemma {:induction false} KeptPrefixError(folders: seq<string>, lines: seq<string>, n: nat)
    requires n <= |lines| && Kept(folders, lines[..n]).Err?
    ensures Kept(folders, lines) == Kept(folders, lines[..n])
    decreases |lines| - n
  {
    if n < |lines| {
      assert lines[..n + 1][..n] == lines[..n];
      KeptPrefixError(folders, lines, n + 1);
    } else {
      assert lines[..n] == lines;
    }
  }
}
