/**
 * `find_file` and `extract_project_dependencies`
 * (src/c/tools/dependency_tools.py): the dependency table of a whole
 * project.
 *
 * For each manifest name, in the order of the extractor dictionary, the
 * first directory of the walk that lists the name gives the file; its
 * extractor's rows are appended, and an extractor that raises adds
 * nothing.  The rows of the imports found in the project's ".py" files
 * follow, tagged with the version "Python".
 *
 * The file system is given as values: the directories `os.walk` lists,
 * top-down, and what reading or parsing the file at a path produces.
 */
module Aggregator {
  import opened Wrappers
  import opened PyText
  import opened PyValue
  import opened PyAst
  import opened Manifests
  import opened Requirements
  import opened SetupPy
  import opened InlineImports
  import opened PyPath

  /** What `find_file(root, name)` returns: the name joined to the first directory listing it. */
  function FindFileIn(walk: seq<Directory>, name: string): Option<string> {
    if walk == [] then None
    else if name in walk[0].files then Some(JoinPath(walk[0].path, name))
    else FindFileIn(walk[1..], name)
  }

  /** `find_file`, given the directories `os.walk` lists. */
  method FindFile(walk: seq<Directory>, name: string) returns (r: Option<string>)
    ensures r == FindFileIn(walk, name)
  {
    var i := 0;
    while i < |walk|
      invariant i <= |walk|
      invariant FindFileIn(walk[i..], name) == FindFileIn(walk, name)
    {
      assert walk[i..][0] == walk[i] && walk[i..][1..] == walk[i + 1..];
      if name in walk[i].files {
        return Some(JoinPath(walk[i].path, name));
      }
      i := i + 1;
    }
    return None;
  }

  /** Directory `i` is the first of the walk listing `name`. */
  predicate FirstListing(walk: seq<Directory>, name: string, i: nat) {
    i < |walk| && name in walk[i].files && forall j :: 0 <= j < i ==> name !in walk[j].files
  }

  /** `find_file` finds nothing exactly when no directory of the walk lists the name. */
  lemma {:induction false} FindFileNone(walk: seq<Directory>, name: string)
    ensures FindFileIn(walk, name).None? <==> forall i :: 0 <= i < |walk| ==> name !in walk[i].files
  {
    if walk != [] && name !in walk[0].files {
      var rest := walk[1..];
      FindFileNone(rest, name);
      assert forall j :: 0 < j < |walk| ==> walk[j] == rest[j - 1];
    }
  }

  /** What `find_file` finds is the name joined to the first directory listing it. */
  lemma {:induction false} FindFileFirst(walk: seq<Directory>, name: string)
    requires FindFileIn(walk, name).Some?
    ensures exists i: nat :: FirstListing(walk, name, i) && FindFileIn(walk, name).value == JoinPath(walk[i].path, name)
  {
    if name in walk[0].files {
      assert FirstListing(walk, name, 0);
    } else {
      var rest := walk[1..];
      FindFileFirst(rest, name);
      var i: nat :| FirstListing(rest, name, i) && FindFileIn(rest, name).value == JoinPath(rest[i].path, name);
      assert FindFileIn(walk, name) == FindFileIn(rest, name);
      assert FirstListing(walk, name, i + 1) by {
        forall j | 0 <= j < i + 1
          ensures name !in walk[j].files
        {
          if j > 0 { assert walk[j] == rest[j - 1]; }
        }
        assert walk[i + 1] == rest[i];
      }
      assert walk[i + 1].path == rest[i].path;
      assert FindFileIn(walk, name).value == JoinPath(walk[i + 1].path, name);
    }
  }

  /** The manifests the aggregator looks for. */
  datatype Manifest = PyprojectFile | PoetryLockFile | PipfileFile | EnvironmentFile | RequirementsFile | SetupFile

  function FileName(m: Manifest): string {
    match m
    case PyprojectFile => "pyproject.toml"
    case PoetryLockFile => "poetry.lock"
    case PipfileFile => "Pipfile"
    case EnvironmentFile => "environment.yml"
    case RequirementsFile => "requirements.txt"
    case SetupFile => "setup.py"
  }

  /** The keys of the extractor dictionary, in insertion order. */
  const DependencyFiles: seq<Manifest> :=
    [PyprojectFile, PoetryLockFile, PipfileFile, EnvironmentFile, RequirementsFile, SetupFile]

  /**
   * A project as the aggregator sees it: the directories `os.walk` lists
   * from its root, what loading the file at a path as TOML or YAML gives
   * (`None`: loading raised), the lines reading the file at a path yields,
   * what `ast.parse` makes of it (`None`: reading or parsing raised), and
   * the interpreter the import check runs in.
   */
  datatype Project = Project(
    walk: seq<Directory>,
    toml: string -> Option<Value>,
    yaml: string -> Option<Value>,
    text: string -> seq<string>,
    syntax: string -> Option<Node>,
    env: Environment)

  /** What the extractor of `m` gives for the file at `path`; an extractor that raises gives nothing. */
  function ExtractedRows(p: Project, m: Manifest, path: string): seq<Dep> {
    match m
    case PyprojectFile => PyprojectDeps(path, p.toml(path))
    case PoetryLockFile => PoetryLockDeps(path, p.toml(path))
    case PipfileFile => PipfileDeps(path, p.toml(path))
    case EnvironmentFile => CondaDeps(path, p.yaml(path))
    case RequirementsFile => RequirementsDeps(path, p.text(path))
    case SetupFile => match SetupPyDeps(path, p.syntax(path)) case None => [] case Some(rows) => rows
  }

  /** The rows manifest `m` contributes: none when the walk has no file of that name. */
  function ManifestRows(p: Project, m: Manifest): seq<Dep> {
    match FindFileIn(p.walk, FileName(m))
    case None => []
    case Some(path) => ExtractedRows(p, m, path)
  }

  /** The rows of the manifests `ms`, in order. */
  function ManifestsRows(p: Project, ms: seq<Manifest>): seq<Dep> {
    if ms == [] then [] else ManifestsRows(p, ms[..|ms| - 1]) + ManifestRows(p, ms[|ms| - 1])
  }

  /** The files of one directory, as the import scan sees them. */
  function DirectorySources(d: Directory, text: string -> seq<string>): (r: seq<SourceFile>)
    ensures |r| == |d.files|
    ensures forall k :: 0 <= k < |r| ==> r[k] == SourceFile(d.files[k], JoinPath(d.path, d.files[k]), text(JoinPath(d.path, d.files[k])))
  {
    seq(|d.files|, k requires 0 <= k < |d.files| => SourceFile(d.files[k], JoinPath(d.path, d.files[k]), text(JoinPath(d.path, d.files[k]))))
  }

  /** Every file of the walk, directory by directory. */
  function WalkSources(walk: seq<Directory>, text: string -> seq<string>): seq<SourceFile> {
    if walk == [] then [] else WalkSources(walk[..|walk| - 1], text) + DirectorySources(walk[|walk| - 1], text)
  }

  /** The rows of the imports in the project's ".py" files (a set: `list(dependencies)` has no fixed order). */
  function InlineRows(p: Project): set<Dep> {
    ProjectDeps(p.env, "Python", WalkSources(p.walk, p.text))
  }

  lemma ManifestsStep(p: Project, ms: seq<Manifest>, i: nat)
    requires i < |ms|
    ensures ManifestsRows(p, ms[..i + 1]) == ManifestsRows(p, ms[..i]) + ManifestRows(p, ms[i])
  {
    assert ms[..i + 1][..i] == ms[..i];
  }

  /** The rows of one found manifest, computed by its extractor. */
  method Extract(p: Project, m: Manifest, path: string) returns (rows: seq<Dep>)
    ensures rows == ExtractedRows(p, m, path)
  {
    match m
    case PyprojectFile => rows := ExtractPyproject(path, p.toml(path));
    case PoetryLockFile => rows := ExtractPoetryLock(path, p.toml(path));
    case PipfileFile => rows := ExtractPipfile(path, p.toml(path));
    case EnvironmentFile => rows := GetCondaDependencies(path, p.yaml(path));
    case RequirementsFile => rows := GetPipDependencies(path, p.text(path));
    case SetupFile =>
      var r := ParseSetupPy(path, p.syntax(path));
      rows := if r.Some? then r.value else [];
  }

  /**
   * `extract_project_dependencies`: the rows of the manifests, in the
   * order of the extractor dictionary, then the rows of the imports, each
   * once, in some order.
   */
  method ExtractProjectDependencies(p: Project) returns (all: seq<Dep>)
    ensures var head := ManifestsRows(p, DependencyFiles);
            && |head| <= |all| && all[..|head|] == head
            && (forall d :: d in all[|head|..] <==> d in InlineRows(p))
            && (forall i, j :: |head| <= i < j < |all| ==> all[i] != all[j])
  {
    all := [];
    var files := DependencyFiles;
    for i := 0 to |files|
      invariant all == ManifestsRows(p, files[..i])
    {
      ManifestsStep(p, files, i);
      var filePath := FindFile(p.walk, FileName(files[i]));
      if filePath.Some? {
        var rows := Extract(p, files[i], filePath.value);
        all := all + rows;
      } else {
        assert all == all + [];
      }
    }
    assert files[..|files|] == files;
    ghost var head := all;
    var inline := ExtractPythonFileDependencies(p.env, WalkSources(p.walk, p.text), "Python");
    all := all + inline;
    assert all[..|head|] == head && all[|head|..] == inline;
  }

  /** Every row of `rows` names `path` as its source. */
  predicate AllFrom(rows: seq<Dep>, path: string) {
    forall k :: 0 <= k < |rows| ==> rows[k].source == path
  }

  lemma SplitRecordsFrom(path: string, texts: seq<string>)
    ensures AllFrom(SplitRecords(path, texts), path)
  {
    forall k | 0 <= k < |texts| ensures SplitRecords(path, texts)[k].source == path {
      SplitRecordsAt(path, texts, k);
    }
  }

  lemma {:induction false} PackageRecordsFrom(path: string, items: seq<Value>)
    ensures AllFrom(PackageRecords(path, items), path)
  {
    if items != [] && items[0].Table? {
      PackageRecordsFrom(path, items[1..]);
      PackageRecordFields(path, items[0].entries);
    }
  }

  lemma {:induction false} RequirementsFrom(path: string, lines: seq<string>)
    ensures AllFrom(RequirementsDeps(path, lines), path)
  {
    if lines != [] {
      RequirementsFrom(path, lines[..|lines| - 1]);
    }
  }

  /**
   * A manifest with no file of its name in the walk adds nothing; one that
   * is found adds only rows naming the path `find_file` gave.
   */
  lemma ManifestRowsFrom(p: Project, m: Manifest)
    ensures FindFileIn(p.walk, FileName(m)).None? ==> ManifestRows(p, m) == []
    ensures FindFileIn(p.walk, FileName(m)).Some? ==> AllFrom(ManifestRows(p, m), FindFileIn(p.walk, FileName(m)).value)
  {
    match FindFileIn(p.walk, FileName(m))
    case None =>
    case Some(path) =>
      match m
      case PyprojectFile => SplitRecordsFrom(path, PyprojectTexts(p.toml(path)));
      case PoetryLockFile =>
        var doc := p.toml(path);
        if doc.Some? {
          var packages := Get(doc.value, "package", Arr([]));
          if packages.Some? && Iterate(packages.value).Some? {
            PackageRecordsFrom(path, Iterate(packages.value).value);
          }
        }
      case PipfileFile => SplitRecordsFrom(path, PipfileTexts(p.toml(path)));
      case EnvironmentFile => SplitRecordsFrom(path, CondaTexts(p.yaml(path)));
      case RequirementsFile => RequirementsFrom(path, p.text(path));
      case SetupFile =>
        var tree := p.syntax(path);
        if tree.Some? {
          SplitRecordsFrom(path, NodesRequires(Walk(tree.value)));
        }
  }

  /** Every manifest row names the path `find_file` gave for one of the manifests. */
  lemma {:induction false} ManifestsRowsFrom(p: Project, ms: seq<Manifest>, d: Dep)
    requires d in ManifestsRows(p, ms)
    ensures exists m :: m in ms && FindFileIn(p.walk, FileName(m)) == Some(d.source)
  {
    var n := |ms| - 1;
    if d in ManifestsRows(p, ms[..n]) {
      ManifestsRowsFrom(p, ms[..n], d);
      var m :| m in ms[..n] && FindFileIn(p.walk, FileName(m)) == Some(d.source);
      assert m in ms;
    } else {
      var rows := ManifestRows(p, ms[n]);
      ManifestRowsFrom(p, ms[n]);
      var k :| 0 <= k < |rows| && rows[k] == d;
      assert FindFileIn(p.walk, FileName(ms[n])) == Some(d.source);
    }
  }

  /** `f` is the entry the walk yields for file `k` of directory `i`. */
  predicate ListedAt(walk: seq<Directory>, text: string -> seq<string>, f: SourceFile, i: nat, k: nat) {
    i < |walk| && k < |walk[i].files|
    && f.name == walk[i].files[k] && f.path == JoinPath(walk[i].path, f.name) && f.lines == text(f.path)
  }

  /** Every entry the import scan sees is a file some directory of the walk lists. */
  lemma {:induction false} WalkSourcesListed(walk: seq<Directory>, text: string -> seq<string>, f: SourceFile)
    requires f in WalkSources(walk, text)
    ensures exists i: nat, k: nat :: ListedAt(walk, text, f, i, k)
  {
    var n := |walk| - 1;
    var init := WalkSources(walk[..n], text);
    var last := DirectorySources(walk[n], text);
    if f in init {
      WalkSourcesListed(walk[..n], text, f);
      var i: nat, k: nat :| ListedAt(walk[..n], text, f, i, k);
      assert walk[..n][i] == walk[i];
      assert ListedAt(walk, text, f, i, k);
    } else {
      var k :| 0 <= k < |last| && last[k] == f;
      assert ListedAt(walk, text, f, n, k);
    }
  }

  /**
   * A row of the import scan names a ".py" file of the walk and the
   * version "Python", and that file has a line importing the package,
   * with no line before it whose check raised.
   */
  lemma InlineRowFrom(p: Project, d: Dep)
    requires d in InlineRows(p)
    ensures d.version == "Python"
    ensures exists i, k :: 0 <= i < |p.walk| && 0 <= k < |p.walk[i].files|
                           && EndsWith(p.walk[i].files[k], ".py")
                           && d.source == JoinPath(p.walk[i].path, p.walk[i].files[k])
                           && d in FileDeps(p.env, d.source, "Python", p.text(d.source))
  {
    var files := WalkSources(p.walk, p.text);
    ProjectDepsMember(p.env, "Python", files, d);
    var f :| 0 <= f < |files| && IsPythonFile(files[f]) && d in FileDeps(p.env, files[f].path, "Python", files[f].lines);
    FileDepsMember(p.env, files[f].path, "Python", files[f].lines, d);
    WalkSourcesListed(p.walk, p.text, files[f]);
    var i: nat, k: nat :| ListedAt(p.walk, p.text, files[f], i, k);
    assert EndsWith(p.walk[i].files[k], ".py");
  }
}
