/**
 * The readers of the TOML and YAML manifests in
 * src/c/tools/dependency_tools.py: `Pipfile`, `pyproject.toml`,
 * `poetry.lock` and conda's `environment.yml`.
 *
 * Each reader takes the parsed document (`None` when opening or parsing
 * the file raised) and builds its list of `(path, package, version)` rows
 * with loops.  Every reader runs inside one `try` whose handler prints the
 * error and returns the rows gathered so far, so a step that raises ends
 * the reader with a prefix of its rows.  The specification functions below
 * say which strings reach `split_dependency`, in order, up to the first
 * step that raises; the rows are those strings split.
 */
module Manifests {
  import opened Wrappers
  import opened PyText
  import opened PyValue
  import opened Specifier

  /** One row of the dependency table: `(source path, package, version)`. */
  datatype Dep = Dep(source: string, package: string, version: string)

  /** `(path,) + split_dependency(dep)`. */
  function SplitRecord(path: string, dep: string): Dep {
    var s := SplitDependency(dep);
    Dep(path, s.package, s.version)
  }

  /** The rows `(path,) + split_dependency(t)` for the strings `texts`, in order. */
  function SplitRecords(path: string, texts: seq<string>): (r: seq<Dep>)
    ensures |r| == |texts|
  {
    if texts == [] then []
    else SplitRecords(path, texts[..|texts| - 1]) + [SplitRecord(path, texts[|texts| - 1])]
  }

  /** Appending a string appends its row. */
  lemma SplitRecordsSnoc(path: string, texts: seq<string>, t: string)
    ensures SplitRecords(path, texts + [t]) == SplitRecords(path, texts) + [SplitRecord(path, t)]
  {
    assert (texts + [t])[..|texts|] == texts;
  }

  /** Row `k` is the `k`-th string split, tagged with the path. */
  lemma {:induction false} SplitRecordsAt(path: string, texts: seq<string>, k: nat)
    requires k < |texts|
    ensures SplitRecords(path, texts)[k] == SplitRecord(path, texts[k])
    ensures SplitRecords(path, texts)[k].source == path
  {
    if k < |texts| - 1 {
      SplitRecordsAt(path, texts[..|texts| - 1], k);
    }
  }

  /** `deps.append((path,) + split_dependency(t))`. */
  method AppendSplit(path: string, deps: seq<Dep>, ghost done: seq<string>, t: string) returns (out: seq<Dep>)
    requires deps == SplitRecords(path, done)
    ensures out == SplitRecords(path, done + [t])
  {
    SplitRecordsSnoc(path, done, t);
    out := deps + [SplitRecord(path, t)];
  }

  /** The string `f"{package}{version}"` of a table entry. */
  function EntryText(e: Entry): string {
    e.key + Display(e.value)
  }

  /** The strings of `for package, version in entries: f"{package}{version}"`. */
  function EntryTexts(entries: seq<Entry>): (r: seq<string>)
    ensures |r| == |entries|
  {
    if entries == [] then []
    else EntryTexts(entries[..|entries| - 1]) + [EntryText(entries[|entries| - 1])]
  }

  /** One more entry, one more string. */
  lemma EntryTextsSnoc(done: seq<string>, entries: seq<Entry>, i: nat)
    requires i < |entries|
    ensures done + EntryTexts(entries[..i + 1]) == (done + EntryTexts(entries[..i])) + [EntryText(entries[i])]
  {
    assert entries[..i + 1][..i] == entries[..i];
  }

  lemma {:induction false} EntryTextsAppend(a: seq<Entry>, b: seq<Entry>)
    ensures EntryTexts(a + b) == EntryTexts(a) + EntryTexts(b)
  {
    if b == [] {
      assert a + b == a;
    } else {
      assert (a + b)[..|a + b| - 1] == a + b[..|b| - 1];
      EntryTextsAppend(a, b[..|b| - 1]);
    }
  }

  /**
   * Appends the rows of `for package, version in entries:
   * split_dependency(f"{package}{version}")` to the rows of `done`.
   */
  method AppendEntryRecords(path: string, deps: seq<Dep>, ghost done: seq<string>, entries: seq<Entry>)
    returns (out: seq<Dep>)
    requires deps == SplitRecords(path, done)
    ensures out == SplitRecords(path, done + EntryTexts(entries))
  {
    out := deps;
    assert done + EntryTexts(entries[..0]) == done;
    for i := 0 to |entries|
      invariant out == SplitRecords(path, done + EntryTexts(entries[..i]))
    {
      EntryTextsSnoc(done, entries, i);
      out := AppendSplit(path, out, done + EntryTexts(entries[..i]), EntryText(entries[i]));
    }
    assert entries[..|entries|] == entries;
  }

  /** Every item is a string. */
  predicate AllStr(items: seq<Value>) {
    forall k :: 0 <= k < |items| ==> items[k].Str?
  }

  /** The list holding the strings `ss`. */
  function StrItems(ss: seq<string>): seq<Value> {
    seq(|ss|, k requires 0 <= k < |ss| => Str(ss[k]))
  }

  /**
   * The strings `for dep in items: split_dependency(dep)` splits: the items
   * up to the first that is not a string (`dep.strip()` raises there).
   */
  function StrTexts(items: seq<Value>): (r: seq<string>)
    ensures |r| <= |items|
  {
    if items == [] || !items[0].Str? then [] else [items[0].s] + StrTexts(items[1..])
  }

  /** `StrTexts` is the longest prefix of string items, as strings. */
  lemma {:induction false} StrTextsShape(items: seq<Value>)
    ensures var r := StrTexts(items);
            && (forall k :: 0 <= k < |r| ==> items[k] == Str(r[k]))
            && (|r| < |items| ==> !items[|r|].Str?)
            && (|r| == |items| <==> AllStr(items))
  {
    if items != [] && items[0].Str? {
      StrTextsShape(items[1..]);
      assert forall k :: 1 <= k < |items| ==> items[k] == items[1..][k - 1];
    }
  }

  /** The loop over `items` after a string at `i`. */
  lemma StrGoOn(items: seq<Value>, i: nat, acc: seq<string>, total: seq<string>)
    requires i < |items| && items[i].Str?
    requires acc + StrTexts(items[i..]) == total
    ensures (acc + [items[i].s]) + StrTexts(items[i + 1..]) == total
  {
    assert items[i..][0] == items[i] && items[i..][1..] == items[i + 1..];
  }

  /** The loop over `items` when the item at `i` is not a string. */
  lemma StrStop(items: seq<Value>, i: nat, acc: seq<string>, total: seq<string>)
    requires i < |items| && !items[i].Str?
    requires acc + StrTexts(items[i..]) == total
    ensures acc == total
  {
    assert items[i..][0] == items[i];
    assert acc + [] == acc;
  }

  /** The loop over `items` once it has passed the last item. */
  lemma StrDone(items: seq<Value>, acc: seq<string>, total: seq<string>)
    requires acc + StrTexts(items[|items|..]) == total
    ensures acc == total
  {
    assert items[|items|..] == [] && acc + [] == acc;
  }

  /** A list of strings hands every string over, verbatim and in order. */
  lemma StrTextsOfStrings(ss: seq<string>)
    ensures StrTexts(StrItems(ss)) == ss
  {
    assert AllStr(StrItems(ss));
    StrTextsShape(StrItems(ss));
  }

  /** Appends the rows of `for dep in items: split_dependency(dep)`; `raised` when an item is not a string. */
  method AppendStrRecords(path: string, deps: seq<Dep>, ghost done: seq<string>, items: seq<Value>)
    returns (out: seq<Dep>, raised: bool)
    requires deps == SplitRecords(path, done)
    ensures out == SplitRecords(path, done + StrTexts(items))
    ensures raised <==> !AllStr(items)
  {
    out := deps;
    ghost var acc := done;
    var i := 0;
    assert items[0..] == items;
    while i < |items|
      invariant 0 <= i <= |items|
      invariant out == SplitRecords(path, acc)
      invariant acc + StrTexts(items[i..]) == done + StrTexts(items)
      invariant forall k :: 0 <= k < i ==> items[k].Str?
    {
      if !items[i].Str? {
        StrStop(items, i, acc, done + StrTexts(items));
        return out, true;
      }
      StrGoOn(items, i, acc, done + StrTexts(items));
      out := AppendSplit(path, out, acc, items[i].s);
      acc := acc + [items[i].s];
      i := i + 1;
    }
    StrDone(items, acc, done + StrTexts(items));
    raised := false;
  }

  /**
   * What one pass of a reader's loop contributes: the strings it hands to
   * `split_dependency`, and whether the loop goes on (`false` once a step
   * has raised).
   */
  datatype Step = Step(texts: seq<string>, goesOn: bool)

  /** One pass of `if section in data: for package, version in data[section].items(): ...`. */
  function SectionStep(data: Value, section: string): Step {
    match Contains(data, section)
    case None => Step([], false)
    case Some(false) => Step([], true)
    case Some(true) =>
      match Index(data, section)
      case None => Step([], false)
      case Some(table) =>
        match Items(table)
        case None => Step([], false)
        case Some(entries) => Step(EntryTexts(entries), true)
  }

  /**
   * The strings of
   *   for section in sections:
   *     if section in data:
   *       for package, version in data[section].items(): f"{package}{version}"
   * up to the first step that raises.
   */
  function SectionTexts(data: Value, sections: seq<string>): seq<string> {
    if sections == [] then []
    else
      var step := SectionStep(data, sections[0]);
      step.texts + if step.goesOn then SectionTexts(data, sections[1..]) else []
  }

  /** The loop over `sections` after the pass at `i`, when that pass goes on. */
  lemma SectionsGoOn(data: Value, sections: seq<string>, i: nat, acc: seq<string>, done: seq<string>)
    requires i < |sections| && SectionStep(data, sections[i]).goesOn
    requires acc + SectionTexts(data, sections[i..]) == done + SectionTexts(data, sections)
    ensures (acc + SectionStep(data, sections[i]).texts) + SectionTexts(data, sections[i + 1..])
            == done + SectionTexts(data, sections)
  {
    assert sections[i..][0] == sections[i] && sections[i..][1..] == sections[i + 1..];
  }

  /** The loop over `sections` when the pass at `i` raises. */
  lemma SectionsStop(data: Value, sections: seq<string>, i: nat, acc: seq<string>, done: seq<string>)
    requires i < |sections| && SectionStep(data, sections[i]) == Step([], false)
    requires acc + SectionTexts(data, sections[i..]) == done + SectionTexts(data, sections)
    ensures acc == done + SectionTexts(data, sections)
  {
    assert sections[i..][0] == sections[i];
    assert acc + [] == acc;
  }

  /** Appends the rows of the loop over `sections` that `SectionTexts` describes. */
  method AppendSectionRecords(path: string, deps: seq<Dep>, ghost done: seq<string>, data: Value, sections: seq<string>)
    returns (out: seq<Dep>)
    requires deps == SplitRecords(path, done)
    ensures out == SplitRecords(path, done + SectionTexts(data, sections))
  {
    out := deps;
    ghost var acc := done;
    var i := 0;
    assert sections[0..] == sections;
    while i < |sections|
      invariant 0 <= i <= |sections|
      invariant out == SplitRecords(path, acc)
      invariant acc + SectionTexts(data, sections[i..]) == done + SectionTexts(data, sections)
    {
      var present := Contains(data, sections[i]);
      if present.None? {
        SectionsStop(data, sections, i, acc, done);
        return;
      }
      if present.value {
        var table := Index(data, sections[i]);
        if table.None? {
          SectionsStop(data, sections, i, acc, done);
          return;
        }
        var entries := Items(table.value);
        if entries.None? {
          SectionsStop(data, sections, i, acc, done);
          return;
        }
        SectionsGoOn(data, sections, i, acc, done);
        out := AppendEntryRecords(path, out, acc, entries.value);
        acc := acc + EntryTexts(entries.value);
      } else {
        SectionsGoOn(data, sections, i, acc, done);
        assert acc + [] == acc;
      }
      i := i + 1;
    }
    assert sections[|sections|..] == [] && acc + [] == acc;
  }

  /** `data[name]` is the table `section`, or `name` is absent when `section` is `None`. */
  predicate SectionIs(data: seq<Entry>, name: string, section: Option<seq<Entry>>) {
    Lookup(data, name) == (match section case Some(es) => Some(Table(es)) case None => None)
  }

  function EntriesOr(section: Option<seq<Entry>>): seq<Entry> {
    match section case Some(es) => es case None => []
  }

  /** A section that is a table contributes its entries; an absent one nothing; neither raises. */
  lemma SectionStepOfTable(data: seq<Entry>, name: string, section: Option<seq<Entry>>)
    requires SectionIs(data, name, section)
    ensures SectionStep(Table(data), name) == Step(EntryTexts(EntriesOr(section)), true)
  {
  }

  /** Two sections, each a table or absent: every entry, first section first. */
  lemma TwoTableSections(data: seq<Entry>, first: string, second: string,
                         s1: Option<seq<Entry>>, s2: Option<seq<Entry>>)
    requires SectionIs(data, first, s1) && SectionIs(data, second, s2)
    ensures SectionTexts(Table(data), [first, second]) == EntryTexts(EntriesOr(s1) + EntriesOr(s2))
  {
    SectionStepOfTable(data, first, s1);
    SectionStepOfTable(data, second, s2);
    assert [first, second][1..] == [second];
    assert [second][1..] == [];
    assert SectionTexts(Table(data), [second]) == EntryTexts(EntriesOr(s2)) + [];
    EntryTextsAppend(EntriesOr(s1), EntriesOr(s2));
  }

  /** A present section that is not a table raises in `.items()`: nothing from it or from any later section. */
  lemma SectionNotTable(data: seq<Entry>, sections: seq<string>, v: Value)
    requires |sections| > 0 && Lookup(data, sections[0]) == Some(v) && !v.Table?
    ensures SectionTexts(Table(data), sections) == []
  {
  }

  // ---------------------------------------------------------------------
  // Pipfile (dependency_tools.py:39-50)

  const PipfileSections: seq<string> := ["packages", "dev-packages"]

  /** The strings `extract_pipfile_dependencies` splits, for the parsed Pipfile `doc`. */
  function PipfileTexts(doc: Option<Value>): seq<string> {
    match doc
    case None => []
    case Some(data) => SectionTexts(data, PipfileSections)
  }

  /** What `extract_pipfile_dependencies` returns. */
  function PipfileDeps(path: string, doc: Option<Value>): seq<Dep> {
    SplitRecords(path, PipfileTexts(doc))
  }

  /** `extract_pipfile_dependencies`, given what loading the file produced. */
  method ExtractPipfile(path: string, doc: Option<Value>) returns (deps: seq<Dep>)
    ensures deps == PipfileDeps(path, doc)
  {
    deps := [];
    if doc.None? {
      return;
    }
    deps := AppendSectionRecords(path, deps, [], doc.value, PipfileSections);
    assert [] + PipfileTexts(doc) == PipfileTexts(doc);
  }

  /**
   * A Pipfile whose `[packages]` and `[dev-packages]` are tables (or
   * absent): one string per entry, `name + value`, packages first.
   */
  lemma PipfileRecords(data: seq<Entry>, packages: Option<seq<Entry>>, dev: Option<seq<Entry>>)
    requires SectionIs(data, "packages", packages) && SectionIs(data, "dev-packages", dev)
    ensures PipfileTexts(Some(Table(data))) == EntryTexts(EntriesOr(packages) + EntriesOr(dev))
  {
    TwoTableSections(data, "packages", "dev-packages", packages, dev);
  }

  /** A `packages` key that is not a table makes the whole Pipfile yield nothing. */
  lemma PipfilePackagesNotTable(data: seq<Entry>, v: Value)
    requires Lookup(data, "packages") == Some(v) && !v.Table?
    ensures PipfileTexts(Some(Table(data))) == []
  {
    SectionNotTable(data, PipfileSections, v);
  }

  // ---------------------------------------------------------------------
  // pyproject.toml (dependency_tools.py:52-69)

  const PoetrySections: seq<string> := ["dependencies", "dev-dependencies"]

  /**
   * `outer in data and inner in data[outer]`, with Python's short circuit;
   * `None` when it raises.  On a table: false when `outer` is missing, and
   * when `data[outer]` is a table, whether it holds `inner`.
   */
  function NestedIn(data: Value, outer: string, inner: string): (r: Option<bool>)
    ensures data.Table? && Lookup(data.entries, outer).None? ==> r == Some(false)
    ensures data.Table? && Lookup(data.entries, outer).Some? && Lookup(data.entries, outer).value.Table? ==>
              r == Some(Lookup(Lookup(data.entries, outer).value.entries, inner).Some?)
  {
    match Contains(data, outer)
    case None => None
    case Some(false) => Some(false)
    case Some(true) =>
      match Index(data, outer)
      case None => None
      case Some(v) => Contains(v, inner)
  }

  /** `data[outer][inner]`; `None` when it raises, which it does unless both levels are tables holding the keys. */
  function NestedIndex(data: Value, outer: string, inner: string): (r: Option<Value>)
    ensures r.Some? <==> data.Table? && Lookup(data.entries, outer).Some? && Lookup(data.entries, outer).value.Table?
                         && Lookup(Lookup(data.entries, outer).value.entries, inner).Some?
    ensures r.Some? ==> r == Lookup(Lookup(data.entries, outer).value.entries, inner)
  {
    match Index(data, outer)
    case None => None
    case Some(v) => Index(v, inner)
  }

  /** The strings split for `pyproject.toml`: from `[tool.poetry]` when present, from `[project]` otherwise. */
  function PyprojectTexts(doc: Option<Value>): seq<string> {
    if doc.None? then []
    else
      var data := doc.value;
      match NestedIn(data, "tool", "poetry")
      case None => []
      case Some(true) =>
        (match NestedIndex(data, "tool", "poetry")
         case None => []
         case Some(poetry) => SectionTexts(poetry, PoetrySections))
      case Some(false) =>
        match NestedIn(data, "project", "dependencies")
        case None => []
        case Some(false) => []
        case Some(true) =>
          match NestedIndex(data, "project", "dependencies")
          case None => []
          case Some(list) =>
            match Iterate(list)
            case None => []
            case Some(items) => StrTexts(items)
  }

  /** What `extract_pyproject_dependencies` returns. */
  function PyprojectDeps(path: string, doc: Option<Value>): seq<Dep> {
    SplitRecords(path, PyprojectTexts(doc))
  }

  /** `extract_pyproject_dependencies`, given what loading the file produced. */
  method ExtractPyproject(path: string, doc: Option<Value>) returns (deps: seq<Dep>)
    ensures deps == PyprojectDeps(path, doc)
  {
    deps := [];
    if doc.None? {
      return;
    }
    var data := doc.value;
    var usePoetry := NestedIn(data, "tool", "poetry");
    if usePoetry.None? {
      return;
    }
    if usePoetry.value {
      var poetry := NestedIndex(data, "tool", "poetry");
      if poetry.None? {
        return;
      }
      deps := AppendSectionRecords(path, deps, [], poetry.value, PoetrySections);
    } else {
      var useProject := NestedIn(data, "project", "dependencies");
      if useProject.None? || !useProject.value {
        return;
      }
      var list := NestedIndex(data, "project", "dependencies");
      if list.None? {
        return;
      }
      var items := Iterate(list.value);
      if items.None? {
        return;
      }
      var raised;
      deps, raised := AppendStrRecords(path, deps, [], items.value);
    }
    assert [] + PyprojectTexts(doc) == PyprojectTexts(doc);
  }

  /** The entries of a table without those under `key`. */
  function WithoutKey(entries: seq<Entry>, key: string): (r: seq<Entry>)
    ensures forall k :: k != key ==> Lookup(r, k) == Lookup(entries, k)
  {
    if entries == [] then []
    else if entries[0].key == key then WithoutKey(entries[1..], key)
    else [entries[0]] + WithoutKey(entries[1..], key)
  }

  /**
   * `[tool.poetry]` takes precedence: when it is present, whatever
   * `[project]` holds does not affect the rows.
   */
  lemma PoetryShadowsProject(path: string, data: seq<Entry>)
    requires NestedIn(Table(data), "tool", "poetry") == Some(true)
    ensures PyprojectDeps(path, Some(Table(data))) == PyprojectDeps(path, Some(Table(WithoutKey(data, "project"))))
  {
    assert Lookup(WithoutKey(data, "project"), "tool") == Lookup(data, "tool");
  }

  /**
   * With `[tool.poetry]` a table whose two sections are tables (or
   * absent): one string per entry, `dependencies` first.
   */
  lemma PoetryRecords(data: seq<Entry>, tool: seq<Entry>, poetry: seq<Entry>,
                      main: Option<seq<Entry>>, dev: Option<seq<Entry>>)
    requires Lookup(data, "tool") == Some(Table(tool)) && Lookup(tool, "poetry") == Some(Table(poetry))
    requires SectionIs(poetry, "dependencies", main) && SectionIs(poetry, "dev-dependencies", dev)
    ensures PyprojectTexts(Some(Table(data))) == EntryTexts(EntriesOr(main) + EntriesOr(dev))
  {
    assert NestedIn(Table(data), "tool", "poetry") == Some(true);
    assert NestedIndex(Table(data), "tool", "poetry") == Some(Table(poetry));
    assert PyprojectTexts(Some(Table(data))) == SectionTexts(Table(poetry), PoetrySections);
    TwoTableSections(poetry, "dependencies", "dev-dependencies", main, dev);
  }

  /**
   * Without `[tool.poetry]` (no `tool` key, or a `tool` table without
   * `poetry`, such as `[tool.black]`), a `[project]` dependency list of
   * strings hands every string to `split_dependency`, in order.
   */
  lemma ProjectRecords(data: seq<Entry>, project: seq<Entry>, deps: seq<string>)
    requires NestedIn(Table(data), "tool", "poetry") == Some(false)
    requires Lookup(data, "project") == Some(Table(project))
    requires Lookup(project, "dependencies") == Some(Arr(StrItems(deps)))
    ensures PyprojectTexts(Some(Table(data))) == deps
  {
    StrTextsOfStrings(deps);
  }

  // ---------------------------------------------------------------------
  // poetry.lock (dependency_tools.py:71-82)

  /** `package.get(key, default)` on a lock entry. */
  function LookupOr(entries: seq<Entry>, key: string, default: Value): Value {
    match Lookup(entries, key) case Some(v) => v case None => default
  }

  /** The row of one `[[package]]` entry: name and version as they are, never split. */
  function PackageRecord(path: string, entries: seq<Entry>): Dep {
    Dep(path, Display(LookupOr(entries, "name", Str(""))), Display(LookupOr(entries, "version", Str("Unknown"))))
  }

  /** A package's string name and version are copied verbatim; a missing one becomes "" or "Unknown". */
  lemma PackageRecordFields(path: string, entries: seq<Entry>)
    ensures var r := PackageRecord(path, entries);
            var name := Lookup(entries, "name");
            var version := Lookup(entries, "version");
            && r.source == path
            && (name.Some? && name.value.Str? ==> r.package == name.value.s)
            && (name.None? ==> r.package == "")
            && (version.Some? && version.value.Str? ==> r.version == version.value.s)
            && (version.None? ==> r.version == "Unknown")
  {
  }

  /** One row per package entry, up to the first that is not a table (`.get` raises there). */
  function PackageRecords(path: string, items: seq<Value>): (r: seq<Dep>)
    ensures |r| <= |items|
  {
    if items == [] || !items[0].Table? then []
    else [PackageRecord(path, items[0].entries)] + PackageRecords(path, items[1..])
  }

  /** What `extract_poetry_lock_dependencies` returns for the parsed `doc`. */
  function PoetryLockDeps(path: string, doc: Option<Value>): seq<Dep> {
    match doc
    case None => []
    case Some(data) =>
      match Get(data, "package", Arr([]))
      case None => []
      case Some(packages) =>
        match Iterate(packages)
        case None => []
        case Some(items) => PackageRecords(path, items)
  }

  /** `extract_poetry_lock_dependencies`, given what loading the file produced. */
  method ExtractPoetryLock(path: string, doc: Option<Value>) returns (deps: seq<Dep>)
    ensures deps == PoetryLockDeps(path, doc)
  {
    deps := [];
    if doc.None? {
      return;
    }
    var packages := Get(doc.value, "package", Arr([]));
    if packages.None? {
      return;
    }
    var items := Iterate(packages.value);
    if items.None? {
      return;
    }
    var i := 0;
    while i < |items.value|
      invariant 0 <= i <= |items.value|
      invariant deps + PackageRecords(path, items.value[i..]) == PackageRecords(path, items.value)
    {
      var package := items.value[i];
      assert items.value[i..][0] == package && items.value[i..][1..] == items.value[i + 1..];
      if !package.Table? {
        return;
      }
      deps := deps + [PackageRecord(path, package.entries)];
      i := i + 1;
    }
  }

  /** Package entries that are all tables: exactly one row each, in order. */
  lemma {:induction false} PackageRecordsOfTables(path: string, items: seq<Value>)
    requires forall k :: 0 <= k < |items| ==> items[k].Table?
    ensures var r := PackageRecords(path, items);
            |r| == |items| && forall k :: 0 <= k < |r| ==> r[k] == PackageRecord(path, items[k].entries)
  {
    if items != [] {
      PackageRecordsOfTables(path, items[1..]);
    }
  }

  /** A lock file whose `package` array holds tables: exactly one row per package, in order. */
  lemma PoetryLockRecords(path: string, data: seq<Entry>, items: seq<Value>)
    requires Lookup(data, "package") == Some(Arr(items))
    requires forall k :: 0 <= k < |items| ==> items[k].Table?
    ensures var r := PoetryLockDeps(path, Some(Table(data)));
            |r| == |items| && forall k :: 0 <= k < |r| ==> r[k] == PackageRecord(path, items[k].entries)
  {
    PackageRecordsOfTables(path, items);
  }

  /** A lock file without `package` entries yields nothing. */
  lemma PoetryLockWithoutPackages(path: string, data: seq<Entry>)
    requires Lookup(data, "package").None?
    ensures PoetryLockDeps(path, Some(Table(data))) == []
  {
  }

  // ---------------------------------------------------------------------
  // environment.yml (dependency_tools.py:84-99)

  /**
   * One pass of the loop over conda's `dependencies`: a string is handed
   * over itself; a mapping with a `pip` key hands over the strings of its
   * `pip` list (and raises at the first item that is not a string);
   * anything else is skipped.
   */
  function CondaStep(dep: Value): Step {
    match dep
    case Str(s) => Step([s], true)
    case Table(entries) =>
      (match Lookup(entries, "pip")
       case None => Step([], true)
       case Some(pip) =>
         match Iterate(pip)
         case None => Step([], false)
         case Some(pips) => Step(StrTexts(pips), AllStr(pips)))
    case _ => Step([], true)
  }

  /** The strings split by the loop over conda's `dependencies`, up to the first step that raises. */
  function CondaItemTexts(items: seq<Value>): seq<string> {
    if items == [] then []
    else
      var step := CondaStep(items[0]);
      step.texts + if step.goesOn then CondaItemTexts(items[1..]) else []
  }

  /** The pass over a mapping with a `pip` key whose value iterates as `pips`. */
  lemma CondaPipStep(dep: Value, pips: Option<seq<Value>>)
    requires dep.Table? && Lookup(dep.entries, "pip").Some?
    requires pips == Iterate(Lookup(dep.entries, "pip").value)
    ensures pips.None? ==> CondaStep(dep) == Step([], false)
    ensures pips.Some? ==> CondaStep(dep) == Step(StrTexts(pips.value), AllStr(pips.value))
  {
  }

  /** The loop over `items` after the pass at `i`, when that pass goes on. */
  lemma CondaGoOn(items: seq<Value>, i: nat, acc: seq<string>, total: seq<string>)
    requires i < |items| && CondaStep(items[i]).goesOn
    requires acc + CondaItemTexts(items[i..]) == total
    ensures (acc + CondaStep(items[i]).texts) + CondaItemTexts(items[i + 1..]) == total
  {
    var texts, later := CondaStep(items[i]).texts, CondaItemTexts(items[i + 1..]);
    assert CondaItemTexts(items[i..]) == texts + later by {
      assert items[i..][0] == items[i] && items[i..][1..] == items[i + 1..];
    }
    assert acc + (texts + later) == (acc + texts) + later;
  }

  /** The loop over `items` when the pass at `i` raises. */
  lemma CondaStop(items: seq<Value>, i: nat, acc: seq<string>, total: seq<string>)
    requires i < |items| && !CondaStep(items[i]).goesOn
    requires acc + CondaItemTexts(items[i..]) == total
    ensures acc + CondaStep(items[i]).texts == total
  {
    assert items[i..][0] == items[i];
    assert CondaStep(items[i]).texts + [] == CondaStep(items[i]).texts;
  }

  /** The strings `get_conda_dependencies` splits, for the parsed `doc`. */
  function CondaTexts(doc: Option<Value>): seq<string> {
    match doc
    case None => []
    case Some(data) =>
      match Get(data, "dependencies", Arr([]))
      case None => []
      case Some(list) =>
        match Iterate(list)
        case None => []
        case Some(items) => CondaItemTexts(items)
  }

  /** What `get_conda_dependencies` returns. */
  function CondaDeps(path: string, doc: Option<Value>): seq<Dep> {
    SplitRecords(path, CondaTexts(doc))
  }

  /** `get_conda_dependencies`, given what loading the file produced. */
  method GetCondaDependencies(path: string, doc: Option<Value>) returns (deps: seq<Dep>)
    ensures deps == CondaDeps(path, doc)
  {
    deps := [];
    if doc.None? {
      return;
    }
    var list := Get(doc.value, "dependencies", Arr([]));
    if list.None? {
      return;
    }
    var items := Iterate(list.value);
    if items.None? {
      return;
    }
    ghost var acc: seq<string> := [];
    ghost var total := CondaTexts(doc);
    assert items.value[0..] == items.value;
    var i := 0;
    while i < |items.value|
      invariant 0 <= i <= |items.value|
      invariant deps == SplitRecords(path, acc)
      invariant acc + CondaItemTexts(items.value[i..]) == total
    {
      var dep := items.value[i];
      if dep.Str? {
        CondaGoOn(items.value, i, acc, total);
        deps := AppendSplit(path, deps, acc, dep.s);
        acc := acc + [dep.s];
      } else if dep.Table? && Lookup(dep.entries, "pip").Some? {
        var pips := Iterate(Lookup(dep.entries, "pip").value);
        CondaPipStep(dep, pips);
        if pips.None? {
          CondaStop(items.value, i, acc, total);
          assert acc + [] == acc;
          return;
        }
        var raised;
        deps, raised := AppendStrRecords(path, deps, acc, pips.value);
        if raised {
          CondaStop(items.value, i, acc, total);
          return;
        }
        CondaGoOn(items.value, i, acc, total);
        acc := acc + StrTexts(pips.value);
      } else {
        CondaGoOn(items.value, i, acc, total);
        assert acc + [] == acc;
      }
      i := i + 1;
    }
    assert items.value[|items.value|..] == [] && acc + [] == acc;
  }

  /** A string entry and a nested `pip` list of strings: the string, then every pip string. */
  lemma CondaNestedPip(conda: string, pips: seq<string>)
    ensures CondaItemTexts([Str(conda), Table([Entry("pip", Arr(StrItems(pips)))])]) == [conda] + pips
  {
    var pip := Table([Entry("pip", Arr(StrItems(pips)))]);
    var items := [Str(conda), pip];
    StrTextsOfStrings(pips);
    assert AllStr(StrItems(pips));
    assert CondaStep(pip) == Step(pips, true);
    assert [pip][1..] == [];
    assert CondaItemTexts([pip]) == pips + [];
    assert items[1..] == [pip];
  }

  /** Entries that are neither strings nor mappings with `pip` are skipped. */
  lemma CondaSkipsOthers(v: Value, rest: seq<Value>)
    requires !v.Str? && (v.Table? ==> Lookup(v.entries, "pip").None?)
    ensures CondaItemTexts([v] + rest) == CondaItemTexts(rest)
  {
    assert ([v] + rest)[1..] == rest;
  }

  /** A `pip` entry that is not a string stops the whole reader after the strings before it. */
  lemma CondaPipRaises(pips: seq<Value>, rest: seq<Value>)
    requires !AllStr(pips)
    ensures CondaItemTexts([Table([Entry("pip", Arr(pips))])] + rest) == StrTexts(pips)
  {
    assert ([Table([Entry("pip", Arr(pips))])] + rest)[0] == Table([Entry("pip", Arr(pips))]);
  }

  /** An environment file that is not a mapping (an empty file loads as `None`) yields nothing. */
  lemma CondaNotMapping(data: Value)
    requires !data.Table?
    ensures CondaTexts(Some(data)) == []
  {
  }

  // ---------------------------------------------------------------------
  // How the TOML readers call `tomli.load`

  /** What the readers hand to `tomli.load`. */
  datatype TomlArgument = PathString(path: string) | TextModeFile | BinaryModeFile

  /**
   * `tomli.load(arg)`: it reads bytes from a binary file object.  A path
   * string has no `read` (`AttributeError`) and a text-mode file yields
   * `str`, which tomli >= 2.0 refuses with a `TypeError`; only a binary-mode file
   * gets the document `parsed`.
   */
  function TomlLoad(arg: TomlArgument, parsed: Option<Value>): (r: Option<Value>)
    ensures r.Some? ==> arg.BinaryModeFile?
    ensures arg.BinaryModeFile? ==> r == parsed
  {
    if arg.BinaryModeFile? then parsed else None
  }

  /**
   * `extract_pipfile_dependencies` as written: `toml.load(pipfile_path)`
   * with the path string, so the `except` catches the `AttributeError` and
   * no row is produced, whatever the file holds.
   */
  function PipfileDepsAsWritten(path: string, parsed: Option<Value>): (r: seq<Dep>)
    ensures r == []
  {
    PipfileDeps(path, TomlLoad(PathString(path), parsed))
  }

  /** `extract_pyproject_dependencies` as written: `toml.load(pyproject_path)` with the path string; never a row. */
  function PyprojectDepsAsWritten(path: string, parsed: Option<Value>): (r: seq<Dep>)
    ensures r == []
  {
    PyprojectDeps(path, TomlLoad(PathString(path), parsed))
  }

  /** `extract_poetry_lock_dependencies` as written: the file is opened with mode "r", which tomli refuses; never a row. */
  function PoetryLockDepsAsWritten(path: string, parsed: Option<Value>): (r: seq<Dep>)
    ensures r == []
  {
    PoetryLockDeps(path, TomlLoad(TextModeFile, parsed))
  }

  /** Loaded from a binary-mode file, a one-package Pipfile gives its row; as written it gives none. */
  lemma PipfileLoadedFromBinary(path: string, name: string, spec: string)
    ensures var doc := Table([Entry("packages", Table([Entry(name, Str(spec))]))]);
            PipfileDeps(path, TomlLoad(BinaryModeFile, Some(doc))) == [SplitRecord(path, name + spec)]
            && PipfileDepsAsWritten(path, Some(doc)) == []
  {
    var packages := [Entry(name, Str(spec))];
    var data := [Entry("packages", Table(packages))];
    var doc := Table(data);
    assert PipfileTexts(Some(doc)) == [name + spec] by {
      assert SectionIs(data, "packages", Some(packages)) && SectionIs(data, "dev-packages", None);
      PipfileRecords(data, Some(packages), None);
      assert EntriesOr(Some(packages)) + EntriesOr(None) == packages;
      assert EntryTexts(packages) == [name + spec] by {
        assert packages[..0] == [];
        assert EntryText(packages[0]) == name + spec;
      }
    }
    assert SplitRecords(path, [name + spec]) == [SplitRecord(path, name + spec)] by {
      SplitRecordsSnoc(path, [], name + spec);
      assert [] + [name + spec] == [name + spec];
    }
    assert TomlLoad(BinaryModeFile, Some(doc)) == Some(doc);
  }
}
