/**
 * `extract_python_file_dependencies` (src/c/tools/dependency_tools.py):
 * the modules that the project's own Python files import.
 *
 * Every file whose name ends in ".py" is read line by line.  A line that
 * matches `^\s*(?:import|from)\s+([\w\d_\.]+)` names a module; its first
 * dotted component is kept unless `is_builtin_module` says it is built in.
 * The check asks `sys.builtin_module_names` and then
 * `importlib.util.find_spec`, which looks at the running interpreter's
 * installation; both are given to the model as an `Environment`.  When the
 * check raises, the `try` around the file ends the scan of that file; the
 * rows found so far stay.  The rows are collected in a set and returned as
 * a list in no particular order.
 */
module InlineImports {
  import opened Wrappers
  import opened PyText
  import opened Manifests

  /** The characters of the class `[\w\d_\.]`. */
  predicate IsModuleNameChar(c: char) {
    IsWordChar(c) || c == '.'
  }

  predicate AllSpace(s: string) {
    forall k :: 0 <= k < |s| ==> IsSpace(s[k])
  }

  predicate AllNameChars(s: string) {
    forall k :: 0 <= k < |s| ==> IsModuleNameChar(s[k])
  }

  /** What is left of `s` once its leading whitespace is consumed (`\s*`). */
  function DropSpace(s: string): (r: string)
    ensures |r| <= |s| && r == s[|s| - |r|..]
    ensures AllSpace(s[..|s| - |r|])
    ensures r == [] || !IsSpace(r[0])
  {
    var j := SkipSpace(s, 0);
    assert forall k :: 0 <= k < j ==> s[..j][k] == s[k];
    s[j..]
  }

  /** The end of the run of name characters that starts at `i`. */
  function NameEnd(s: string, i: nat): (e: nat)
    requires i <= |s|
    decreases |s| - i
    ensures i <= e <= |s|
    ensures forall k :: i <= k < e ==> IsModuleNameChar(s[k])
    ensures e == |s| || !IsModuleNameChar(s[e])
  {
    if i < |s| && IsModuleNameChar(s[i]) then NameEnd(s, i + 1) else i
  }

  lemma {:induction false} NameEndIs(s: string, i: nat, e: nat)
    requires i <= e <= |s|
    requires forall k :: i <= k < e ==> IsModuleNameChar(s[k])
    requires e == |s| || !IsModuleNameChar(s[e])
    ensures NameEnd(s, i) == e
    decreases e - i
  {
    if i < e {
      NameEndIs(s, i + 1, e);
    }
  }

  /** The longest prefix of `s` made of name characters (`[\w\d_\.]+`, greedy). */
  function TakeName(s: string): (r: string)
    ensures |r| <= |s| && r == s[..|r|] && AllNameChars(r)
    ensures |r| == |s| || !IsModuleNameChar(s[|r|])
  {
    var e := NameEnd(s, 0);
    assert forall k :: 0 <= k < e ==> s[..e][k] == s[k];
    s[..e]
  }

  /** The keyword the pattern accepts at the start of `rest`, if any: "import" is tried first. */
  function Keyword(rest: string): (r: Option<string>)
    ensures r.Some? ==> (r.value == "import" || r.value == "from") && StartsWith(rest, r.value)
    ensures r.None? ==> !StartsWith(rest, "import") && !StartsWith(rest, "from")
  {
    if StartsWith(rest, "import") then Some("import")
    else if StartsWith(rest, "from") then Some("from")
    else None
  }

  /**
   * `pattern.match(line)`, and then `group(1)`: after optional leading
   * whitespace, "import" or "from", at least one whitespace character and
   * the longest run of name characters, which must not be empty.
   */
  function ImportTarget(line: string): Option<string> {
    var rest := DropSpace(line);
    match Keyword(rest)
    case None => None
    case Some(kw) =>
      var afterKeyword := rest[|kw|..];
      var atName := DropSpace(afterKeyword);
      if |atName| == |afterKeyword| then None
      else
        var name := TakeName(atName);
        if name == [] then None else Some(name)
  }

  /** Name characters are never whitespace. */
  lemma NameCharNotSpace(c: char)
    requires IsModuleNameChar(c)
    ensures !IsSpace(c)
  {
  }

  /** Consuming whitespace `w` in front of a text that does not start with whitespace leaves that text. */
  lemma DropSpaceOf(w: string, r: string)
    requires AllSpace(w) && (r == [] || !IsSpace(r[0]))
    ensures DropSpace(w + r) == r
  {
    var s := w + r;
    assert forall k :: 0 <= k < |w| ==> s[k] == w[k];
    assert |w| < |s| ==> s[|w|] == r[0];
    SkipSpaceIs(s, 0, |w|);
    assert s[|w|..] == r;
  }

  /** A name followed by something that does not continue it is taken whole. */
  lemma TakeNameOf(g: string, tail: string)
    requires AllNameChars(g) && (tail == [] || !IsModuleNameChar(tail[0]))
    ensures TakeName(g + tail) == g
  {
    var s := g + tail;
    assert forall k :: 0 <= k < |g| ==> s[k] == g[k];
    assert |g| < |s| ==> s[|g|] == tail[0];
    NameEndIs(s, 0, |g|);
    assert s[..|g|] == g;
  }

  /** Either keyword, followed by anything, is recognised as itself. */
  lemma KeywordOf(kw: string, s: string)
    requires kw == "import" || kw == "from"
    ensures Keyword(kw + s) == Some(kw)
    ensures (kw + s)[|kw|..] == s
  {
    var t := kw + s;
    assert t[..|kw|] == kw;
    if kw == "from" {
      assert t[0] == 'f';
    }
  }

  /**
   * Every line built as whitespace, a keyword, whitespace, a name and
   * anything that does not continue the name matches, with that name as
   * its group.
   */
  lemma ImportTargetOf(w: string, kw: string, w2: string, g: string, tail: string)
    requires AllSpace(w) && (kw == "import" || kw == "from")
    requires w2 != [] && AllSpace(w2)
    requires g != [] && AllNameChars(g)
    requires tail == [] || !IsModuleNameChar(tail[0])
    ensures ImportTarget(w + (kw + (w2 + (g + tail)))) == Some(g)
  {
    var r3 := g + tail;
    var r2 := w2 + r3;
    var r1 := kw + r2;
    assert r1[0] == kw[0];
    DropSpaceOf(w, r1);
    KeywordOf(kw, r2);
    NameCharNotSpace(g[0]);
    assert r3[0] == g[0];
    DropSpaceOf(w2, r3);
    TakeNameOf(g, tail);
  }

  /** Conversely, every line that matches is built that way. */
  lemma ImportTargetParts(line: string) returns (w: string, kw: string, w2: string, tail: string)
    requires ImportTarget(line).Some?
    ensures var g := ImportTarget(line).value;
            && AllSpace(w) && (kw == "import" || kw == "from")
            && w2 != [] && AllSpace(w2)
            && g != [] && AllNameChars(g)
            && (tail == [] || !IsModuleNameChar(tail[0]))
            && line == w + (kw + (w2 + (g + tail)))
  {
    var r1 := DropSpace(line);
    w := line[..|line| - |r1|];
    Rejoin(line, |line| - |r1|);
    kw := Keyword(r1).value;
    var r2 := r1[|kw|..];
    Rejoin(r1, |kw|);
    var r3 := DropSpace(r2);
    w2 := r2[..|r2| - |r3|];
    Rejoin(r2, |r2| - |r3|);
    var g := TakeName(r3);
    tail := r3[|g|..];
    Rejoin(r3, |g|);
    assert ImportTarget(line) == Some(g);
  }

  lemma Rejoin(s: string, n: nat)
    requires n <= |s|
    ensures s == s[..n] + s[n..]
  {
  }

  /** `group(1).split(".")[0]`: the text before the first '.'. */
  function TopLevel(g: string): (r: string)
    ensures |r| <= |g| && r == g[..|r|] && '.' !in r
    ensures |r| == |g| || g[|r|] == '.'
  {
    if g == [] || g[0] == '.' then []
    else
      var r := TopLevel(g[1..]);
      assert g[1..][..|r|] == g[1..|r| + 1];
      [g[0]] + r
  }

  /**
   * What the interpreter running the scan knows: the names compiled into
   * it and what `importlib.util.find_spec` does for a name (`Some(true)`:
   * a spec is found, `Some(false)`: it returns `None`, `None`: it raises).
   */
  datatype Environment = Environment(builtinNames: set<string>, findSpec: string -> Option<bool>)

  /**
   * `is_builtin_module`: built in, or not found at all.  `None` when
   * `find_spec` raises; it is not asked about a built-in name.
   */
  function IsBuiltinModule(env: Environment, m: string): (r: Option<bool>)
    ensures m in env.builtinNames ==> r == Some(true)
    ensures m !in env.builtinNames ==>
              (r.None? <==> env.findSpec(m).None?) && (r.Some? ==> r.value == !env.findSpec(m).value)
  {
    if m in env.builtinNames then Some(true)
    else match env.findSpec(m)
      case None => None
      case Some(found) => Some(!found)
  }

  /** What one line does to the scan of its file. */
  datatype LineOutcome = Skip | Record(moduleName: string) | Raise

  function ScanLine(env: Environment, line: string): LineOutcome {
    match ImportTarget(line)
    case None => Skip
    case Some(g) =>
      var m := TopLevel(g);
      match IsBuiltinModule(env, m)
      case None => Raise
      case Some(builtin) => if builtin then Skip else Record(m)
  }

  /** A file of the project: its name, its path (`os.path.join(root, file)`) and the lines it yields. */
  datatype SourceFile = SourceFile(name: string, path: string, lines: seq<string>)

  predicate IsPythonFile(f: SourceFile) {
    EndsWith(f.name, ".py")
  }

  /** What each line of a file does to the scan. */
  function LineOutcomes(env: Environment, lines: seq<string>): (r: seq<LineOutcome>)
    ensures |r| == |lines| && forall k :: 0 <= k < |lines| ==> r[k] == ScanLine(env, lines[k])
  {
    seq(|lines|, k requires 0 <= k < |lines| => ScanLine(env, lines[k]))
  }

  /** The rows a run of line outcomes adds: one per recorded module, up to the first raise. */
  function OutcomeRows(path: string, version: string, outcomes: seq<LineOutcome>): set<Dep>
    decreases |outcomes|
  {
    if outcomes == [] then {}
    else
      match outcomes[0]
      case Raise => {}
      case Skip => OutcomeRows(path, version, outcomes[1..])
      case Record(m) => {Dep(path, m, version)} + OutcomeRows(path, version, outcomes[1..])
  }

  /** The rows of one file's lines, up to the first line whose check raises. */
  function FileDeps(env: Environment, path: string, version: string, lines: seq<string>): set<Dep> {
    OutcomeRows(path, version, LineOutcomes(env, lines))
  }

  /** The rows one entry of the walk contributes. */
  function FileRows(env: Environment, version: string, f: SourceFile): set<Dep> {
    if IsPythonFile(f) then FileDeps(env, f.path, version, f.lines) else {}
  }

  /** The rows of each entry of the walk, in the order `os.walk` lists them. */
  function FileRowSets(env: Environment, version: string, files: seq<SourceFile>): (r: seq<set<Dep>>)
    ensures |r| == |files| && forall f :: 0 <= f < |files| ==> r[f] == FileRows(env, version, files[f])
  {
    seq(|files|, f requires 0 <= f < |files| => FileRows(env, version, files[f]))
  }

  /** The union of a sequence of sets. */
  function UnionAll(sets: seq<set<Dep>>): set<Dep> {
    if sets == [] then {} else UnionAll(sets[..|sets| - 1]) + sets[|sets| - 1]
  }

  /** The rows of the whole project. */
  function ProjectDeps(env: Environment, version: string, files: seq<SourceFile>): set<Dep> {
    UnionAll(FileRowSets(env, version, files))
  }

  lemma ScanGoesOn(path: string, version: string, outcomes: seq<LineOutcome>, i: nat)
    requires i < |outcomes| && !outcomes[i].Raise?
    ensures OutcomeRows(path, version, outcomes[i..])
            == (if outcomes[i].Record? then {Dep(path, outcomes[i].moduleName, version)} else {})
               + OutcomeRows(path, version, outcomes[i + 1..])
  {
    assert outcomes[i..][1..] == outcomes[i + 1..];
  }

  lemma ScanStops(path: string, version: string, outcomes: seq<LineOutcome>, i: nat)
    requires i < |outcomes| && outcomes[i].Raise?
    ensures OutcomeRows(path, version, outcomes[i..]) == {}
  {
  }

  lemma UnionStep(sets: seq<set<Dep>>, i: nat)
    requires i < |sets|
    ensures UnionAll(sets[..i + 1]) == UnionAll(sets[..i]) + sets[i]
  {
    assert sets[..i + 1][..i] == sets[..i];
  }

  /** `list(dependencies)`: the members of a set, each once, in some order. */
  method ListOf(s: set<Dep>) returns (r: seq<Dep>)
    ensures forall d :: d in r <==> d in s
    ensures forall i, j :: 0 <= i < j < |r| ==> r[i] != r[j]
  {
    r := [];
    var rest := s;
    while rest != {}
      invariant rest <= s
      invariant forall d :: d in r <==> d in s && d !in rest
      invariant forall i, j :: 0 <= i < j < |r| ==> r[i] != r[j]
      decreases |rest|
    {
      var d :| d in rest;
      r := r + [d];
      rest := rest - {d};
    }
  }

  /** The scan of all files into one set, before it is listed. */
  method ScanFiles(env: Environment, version: string, files: seq<SourceFile>) returns (found: set<Dep>)
    ensures found == ProjectDeps(env, version, files)
  {
    found := {};
    ghost var sets := FileRowSets(env, version, files);
    for i := 0 to |files|
      invariant found == UnionAll(sets[..i])
    {
      UnionStep(sets, i);
      var file := files[i];
      if EndsWith(file.name, ".py") {
        ghost var before := found;
        var lines := file.lines;
        ghost var outcomes := LineOutcomes(env, lines);
        var k := 0;
        while k < |lines|
          invariant k <= |lines|
          invariant found + OutcomeRows(file.path, version, outcomes[k..])
                    == before + OutcomeRows(file.path, version, outcomes)
          decreases |lines| - k
        {
          var outcome := ScanLine(env, lines[k]);
          if outcome.Raise? {
            ScanStops(file.path, version, outcomes, k);
            break;
          }
          ScanGoesOn(file.path, version, outcomes, k);
          if outcome.Record? {
            found := found + {Dep(file.path, outcome.moduleName, version)};
          }
          k := k + 1;
        }
        assert found == before + sets[i];
      } else {
        assert sets[i] == {};
        assert found == found + sets[i];
      }
    }
    assert sets[..|sets|] == sets;
  }

  /** `extract_python_file_dependencies`, given the files `os.walk` yields and the interpreter. */
  method ExtractPythonFileDependencies(env: Environment, files: seq<SourceFile>, version: string)
    returns (deps: seq<Dep>)
    ensures forall d :: d in deps <==> d in ProjectDeps(env, version, files)
    ensures forall i, j :: 0 <= i < j < |deps| ==> deps[i] != deps[j]
  {
    var found := ScanFiles(env, version, files);
    deps := ListOf(found);
  }

  /** No outcome before index `k` is a raise. */
  predicate Reached(outcomes: seq<LineOutcome>, k: nat) {
    forall j :: 0 <= j < k && j < |outcomes| ==> !outcomes[j].Raise?
  }

  lemma {:induction false} OutcomeRowsMember(path: string, version: string, outcomes: seq<LineOutcome>, d: Dep)
    ensures d in OutcomeRows(path, version, outcomes)
            <==> d.source == path && d.version == version
                 && exists k :: 0 <= k < |outcomes| && outcomes[k] == Record(d.package) && Reached(outcomes, k)
    decreases |outcomes|
  {
    if outcomes != [] {
      var rest := outcomes[1..];
      OutcomeRowsMember(path, version, rest, d);
      if d in OutcomeRows(path, version, outcomes) {
        if outcomes[0] == Record(d.package) && d == Dep(path, d.package, version) {
          assert Reached(outcomes, 0);
        } else {
          var k :| 0 <= k < |rest| && rest[k] == Record(d.package) && Reached(rest, k);
          assert outcomes[k + 1] == rest[k];
          assert Reached(outcomes, k + 1);
        }
      }
      if k :| 0 <= k < |outcomes| && outcomes[k] == Record(d.package) && Reached(outcomes, k) {
        if d.source == path && d.version == version && k > 0 {
          assert !outcomes[0].Raise?;
          assert rest[k - 1] == outcomes[k];
          assert Reached(rest, k - 1);
        }
      }
    }
  }

  /**
   * A file yields the row of module `m` exactly when some line records
   * `m` and no line before it raised: rows carry the file's path and the
   * given version, and a raise ends the file.
   */
  lemma FileDepsMember(env: Environment, path: string, version: string, lines: seq<string>, d: Dep)
    ensures d in FileDeps(env, path, version, lines)
            <==> d.source == path && d.version == version
                 && exists k :: 0 <= k < |lines| && ScanLine(env, lines[k]) == Record(d.package)
                                && forall j :: 0 <= j < k ==> !ScanLine(env, lines[j]).Raise?
  {
    var outcomes := LineOutcomes(env, lines);
    OutcomeRowsMember(path, version, outcomes, d);
  }

  lemma {:induction false} UnionAllMember(sets: seq<set<Dep>>, d: Dep)
    ensures d in UnionAll(sets) <==> exists f :: 0 <= f < |sets| && d in sets[f]
  {
    if sets != [] {
      var n := |sets| - 1;
      UnionAllMember(sets[..n], d);
      assert forall f :: 0 <= f < n ==> sets[..n][f] == sets[f];
    }
  }

  /** The project yields a row exactly when one of its ".py" files does. */
  lemma ProjectDepsMember(env: Environment, version: string, files: seq<SourceFile>, d: Dep)
    ensures d in ProjectDeps(env, version, files)
            <==> exists f :: 0 <= f < |files| && IsPythonFile(files[f])
                             && d in FileDeps(env, files[f].path, version, files[f].lines)
  {
    UnionAllMember(FileRowSets(env, version, files), d);
  }

  /** A dotted name's top-level package is its first component. */
  lemma {:induction false} TopLevelOfDotted(a: string, b: string)
    requires '.' !in a
    ensures TopLevel(a + "." + b) == a
  {
    var g := a + "." + b;
    if a == [] {
      assert g[0] == '.';
    } else {
      assert g[0] == a[0] && g[1..] == a[1..] + "." + b;
      TopLevelOfDotted(a[1..], b);
      assert a == [a[0]] + a[1..];
    }
  }

  /**
   * `import <m>` on a line of its own records `m` exactly when the
   * interpreter finds `m` and does not have it built in; a module it
   * cannot find is skipped, as a built-in one is.
   */
  lemma ImportLineOutcome(env: Environment, w: string, m: string)
    requires AllSpace(w) && m != [] && AllNameChars(m) && '.' !in m
    ensures var line := w + ("import" + (" " + (m + "\n")));
            && (m in env.builtinNames ==> ScanLine(env, line) == Skip)
            && (m !in env.builtinNames && env.findSpec(m) == Some(true) ==> ScanLine(env, line) == Record(m))
            && (m !in env.builtinNames && env.findSpec(m) == Some(false) ==> ScanLine(env, line) == Skip)
            && (m !in env.builtinNames && env.findSpec(m).None? ==> ScanLine(env, line) == Raise)
  {
    assert AllSpace(" ");
    assert !IsModuleNameChar('\n');
    ImportTargetOf(w, "import", " ", m, "\n");
    var r := TopLevel(m);
    assert forall k :: 0 <= k < |m| ==> m[k] != '.';
    assert r == m;
  }

  /** `from . import x` asks the interpreter about the empty module name. */
  lemma RelativeImportProbesEmptyName(env: Environment)
    ensures ImportTarget("from . import x\n") == Some(".") && TopLevel(".") == ""
    ensures "" !in env.builtinNames && env.findSpec("").None? ==> ScanLine(env, "from . import x\n") == Raise
    ensures "" !in env.builtinNames && env.findSpec("") == Some(true) ==> ScanLine(env, "from . import x\n") == Record("")
  {
    assert AllSpace(" ") && AllNameChars(".");
    assert "from . import x\n" == "" + ("from" + (" " + ("." + " import x\n")));
    ImportTargetOf("", "from", " ", ".", " import x\n");
  }

  /** A line that merely starts with the letters of "import" is no import. */
  lemma NotAnImport()
    ensures ImportTarget("importlib = 1\n") == None
  {
    var line := "importlib = 1\n";
    assert !IsSpace(line[0]);
    SkipSpaceIs(line, 0, 0);
    assert DropSpace(line) == line;
    assert line[..6] == "import";
    var after := line[6..];
    assert after[0] == 'l';
    SkipSpaceIs(after, 0, 0);
  }
}
