# Dependency and import-usage analysis, modelled in Dafny

This project models the analysis core of a small Python tool set that
inventories the dependencies of a Python project and reports how its
source files use imported modules. The tool set has two parts.

- `src/c/tools/dependency_tools.py`
  - `split_dependency` turns a specifier such as `pkg> 1.0` into a package
    and a version.
  - Six extractors read the common manifests:
    - `pyproject.toml` (Poetry sections or a PEP 621 `project.dependencies` list)
    - `poetry.lock`
    - `Pipfile`
    - a conda `environment.yml`
    - `requirements.txt`
    - the literal `install_requires` list of `setup.py`
  - `extract_python_file_dependencies` scans every `.py` file for
    `import`/`from` lines that name a module which is not built in.
  - `find_file` finds a manifest in the project.
  - `extract_project_dependencies` puts all of these together into one
    table of `(source, package, version)` rows.
- `src/c/tools/analyze_python_ast.py`
  - `ImportUsageVisitor`, an `ast.NodeVisitor`, records each import and
    each `name.attr` usage with its line number.
  - `analyze_repo` runs the visitor over every `.py` file of a repository
    and returns `(path, category, name, line)` rows. A file that fails
    to parse gives an `error` row.

The model follows the code. Where the code is imperative, the model is
too:

- Each extractor is a `method` with the loop of the source. Its `ensures`
  ties the result to a specification function.
- The visitor is a `class` whose `imports` and `usage` fields the visit
  methods extend.
- `find_file`, `analyze_repo` and the aggregator are loops proved against
  functions on the inputs.

Python's own machinery becomes explicit values:

- Parsed TOML and YAML documents are a `Value` datatype. The model has
  functions for `in`, `[]`, `.get`, `.items()`, iteration and f-string
  display, each with the case where Python raises.
- The syntax tree is a `Node` datatype, with `ast.walk` written as a
  breadth-first walk over a queue.
- `os.walk` is the sequence of directories it lists.
- The file system, `ast.parse`, the TOML and YAML loaders and the
  interpreter's module lookup are functions given as parameters.

An extractor whose `try` catches an exception returns the rows it had
appended before the exception. Code outside any `try` that raises gives
`None`.

Modules:

- `Wrappers`, `PyText` and `PyPath` (pytext.dfy): `Option`, `str.strip`,
  `startswith`, `endswith`, `find`, `split("==")` and `os.path.join`.
- `PyValue` (pyvalue.dfy): parsed documents.
- `PyAst` (pyast.dfy): syntax trees and `ast.walk`.
- `Specifier` (specifier.dfy): `split_dependency`.
- `Manifests` (manifests.dfy): the TOML and YAML extractors.
- `Requirements` (requirements.dfy): the `requirements.txt` reader.
- `SetupPy` (setup_py.dfy): the `setup.py` reader.
- `InlineImports` (inline_imports.dfy): the import-line scan.
- `Aggregator` (aggregator.dfy): `find_file` and `extract_project_dependencies`.
- `AstUsage` (ast_usage.dfy): the visitor and `analyze_repo`.

Two behaviours of the code are worth knowing before reading the model:

- **`split_dependency`.** `pkg[extra]>=1.0; python_version>='3.8'` gives
  `("pkg", "Unknown")`. The pattern `[<>=~!]\s[\d\w\.\*]+` wants a
  one-character comparator followed by exactly one whitespace character.
  So `>=1.0` is not a version clause, and the optional condition group can
  then no longer match.
  - `Specifier.SplitExtrasAndMarker` and `Specifier.SplitPinnedVersion`
    state this.
  - `Specifier.SplitSpacedComparator` shows the form that is recognised.
- **`analyze_repo`.** `open` is outside the `try`, so one `.py` file that
  cannot be opened makes `analyze_repo` raise. `AstUsage.RepoReportRaises`
  states this.

## Model

| member | source | states |
|---|---|---|
| PyText.IsSpace | src/c/tools/dependency_tools.py:106 | the whitespace `str.strip()` and `\s` remove includes the six ASCII whitespace characters and never a `\w` character |
| PyText.Strip | src/c/tools/dependency_tools.py:106 | `str.strip()` returns a text no longer than its input that neither starts nor ends with whitespace |
| PyText.StripPadding | src/c/tools/dependency_tools.py:106 | the input is the stripped text with whitespace only before and after it |
| PyText.StripUnpadded | src/c/tools/dependency_tools.py:106 | stripping leaves alone a text with no whitespace at either end |
| PyText.StripAfterSpace | src/c/tools/dependency_tools.py:106 | leading whitespace never changes the stripped text |
| PyText.StripBeforeSpace | src/c/tools/dependency_tools.py:106 | trailing whitespace after a non-blank text is dropped exactly |
| PyText.StartsWithIff | src/c/tools/dependency_tools.py:107 | `StartsWith`, the model of `line.startswith(p)`, holds exactly when the line is `p` followed by the rest of the line |
| PyText.EndsWithIff | src/c/tools/dependency_tools.py:119 | `EndsWith`, the model of `file.endswith(p)`, holds exactly when the name is its beginning followed by `p` |
| PyText.Find | src/c/tools/dependency_tools.py:108 | the index found is the first occurrence at or after the start; `None` means no occurrence there |
| PyText.SplitFirstTwo | src/c/tools/dependency_tools.py:108 | the second piece is absent exactly when "==" does not occur, and then the first piece is the whole line; otherwise the first piece ends at the first occurrence of "==", and the second piece runs from there to the next occurrence or to the end of the line |
| PyText.SplitFirstTwoAt | src/c/tools/dependency_tools.py:108 | with "==" first at `i` and next at `e`, the pieces are the text before `i` and the text between the two, whatever follows `e` |
| PyText.SplitFirstTwoJoin | src/c/tools/dependency_tools.py:108 | round trip: splitting `a + "==" + b` gives back `a` and `b` when "==" first occurs after `a` and does not occur in `b` |
| PyPath.JoinPath | src/c/tools/dependency_tools.py:120 | `os.path.join(root, name)` starts with the root and ends with the name, with at most one character added |
| PyPath.JoinPathSeparator | src/c/tools/dependency_tools.py:120 | the join is the root then the name, with one "/" between them, and the text before the name ends in "/" whenever the root is non-empty |
| PyValue.Lookup | src/c/tools/dependency_tools.py:44-45 | a key is found exactly when some entry has it, and the value returned is that entry's value |
| PyValue.Contains | src/c/tools/dependency_tools.py:44 | `key in v` raises exactly on values other than a mapping, a list or a string; for a mapping it tests the keys, for a list its elements |
| PyValue.Index | src/c/tools/dependency_tools.py:57 | `v[key]` succeeds exactly on a mapping holding the key, and returns that key's value |
| PyValue.Get | src/c/tools/dependency_tools.py:76-78 | `v.get(key, default)` succeeds exactly on a mapping, and returns the key's value or the default |
| PyValue.Items | src/c/tools/dependency_tools.py:45 | `.items()` succeeds exactly on a mapping, and yields its entries in order |
| PyValue.Iterate | src/c/tools/dependency_tools.py:89 | iterating a list yields its items, a mapping yields its keys, a string yields its characters; anything else raises |
| PyValue.Display | src/c/tools/dependency_tools.py:46 | `f"{v}"` prints a string verbatim, and prints nothing only for the empty string |
| PyValue.Repr | src/c/tools/dependency_tools.py:46 | `repr` is never empty: a string is quoted, a list bracketed and a dict braced |
| PyValue.StrRepr | src/c/tools/dependency_tools.py:46 | the display of a string inside a container is quoted with matching quotes |
| PyAst.Walk | src/c/tools/dependency_tools.py:30 | `ast.walk` yields as many nodes as the tree has, the root first |
| PyAst.WalkStep | src/c/tools/dependency_tools.py:30 | the walk yields the head of its queue and then queues that node's children after the rest |
| PyAst.WalkNodes | src/c/tools/dependency_tools.py:30 | `ast.walk` yields exactly the nodes of the tree |
| Specifier.SplitDependency | src/c/tools/dependency_tools.py:14-23 | when the pattern does not match, the result is the input unchanged with "Unknown"; otherwise the package is the longest run of name characters at the start of the stripped text; the version is never empty and is "Unknown" or starts with a comparator or ';' |
| Specifier.ComparatorEnd | src/c/tools/dependency_tools.py:15 | the version clause is a comparator, exactly one whitespace character and at least one version character |
| Specifier.ConditionEnd | src/c/tools/dependency_tools.py:15 | the condition group is ';' followed by at least one character that is not a line break |
| Specifier.ExtrasEnd | src/c/tools/dependency_tools.py:15 | the extras group is '[' followed by at least one character and then ']' |
| Specifier.JoinConditionOf | src/c/tools/dependency_tools.py:20-21 | the condition is appended to the version after one space, or stands alone when there is no version |
| Specifier.SplitCompose | src/c/tools/dependency_tools.py:14-23 | round trip: a specifier built from a name, optional extras, an optional one-character-comparator clause and an optional condition splits back into the name and `ExpectedVersion(clause, cond)`: the comparator clause and the `;` condition joined by one space, either one alone, or "Unknown" when both are absent |
| Specifier.UnspacedComparatorIgnored | src/c/tools/dependency_tools.py:15-22 | a comparator right after the name and extras that is not followed by whitespace (`==`, `>=`, `=3.9`, `>1`) gives version "Unknown", whatever follows |
| Specifier.SplitStopped | src/c/tools/dependency_tools.py:14-23 | a name, optional extras and an optional clause followed by text no group reads split into the name and `ExpectedVersion(clause, None)`: the clause, or "Unknown" |
| Specifier.SplitBareName | src/c/tools/dependency_tools.py:22 | a bare name has version "Unknown" |
| Specifier.SplitSpacedComparator | src/c/tools/dependency_tools.py:15-22 | `pkg> 1.0` splits into `pkg` and `> 1.0` |
| Specifier.SplitPinnedVersion | src/c/tools/dependency_tools.py:15-22 | `pkg==1.0` and `pkg>=1.0` split into `pkg` and "Unknown" |
| Specifier.SplitCondaPin | src/c/tools/dependency_tools.py:15-22 | conda's `python=3.9` splits into `python` and "Unknown" |
| Specifier.SplitCommaRange | src/c/tools/dependency_tools.py:15-22 | `pkg> 1.0,<2.0` splits into `pkg` and `> 1.0` |
| Specifier.SplitParenthesised | src/c/tools/dependency_tools.py:15-22 | `pkg (>=1.0)` splits into `pkg` and "Unknown" |
| Specifier.SplitDirectReference | src/c/tools/dependency_tools.py:15-22 | `pkg @ url` splits into `pkg` and "Unknown" |
| Specifier.SplitExtrasAndMarker | src/c/tools/dependency_tools.py:15-22 | `pkg[extra]>=1.0` followed by any condition splits into `pkg` and "Unknown" |
| Manifests.SplitRecordsAt | src/c/tools/dependency_tools.py:37 | row `k` is the `k`-th string split and tagged with the file's path |
| Manifests.AppendSplit | src/c/tools/dependency_tools.py:46-47 | appending one split row extends the rows of the strings done so far by that string's row |
| Manifests.AppendEntryRecords | src/c/tools/dependency_tools.py:45-47 | the loop over `.items()` appends the rows of `f"{package}{version}"` for each entry, in order |
| Manifests.AppendStrRecords | src/c/tools/dependency_tools.py:64-66 | the loop over a list appends one row per leading string and reports a raise exactly when some item is not a string |
| Manifests.StrTextsShape | src/c/tools/dependency_tools.py:64-66 | the strings split are the leading strings of the list; the loop stops at the first item that is not a string |
| Manifests.AppendSectionRecords | src/c/tools/dependency_tools.py:43-47 | the loop over the section names appends the rows of every section present, stopping at the first one that raises |
| Manifests.SectionStepOfTable | src/c/tools/dependency_tools.py:44-45 | a section that is a table contributes its entries; an absent one contributes nothing |
| Manifests.TwoTableSections | src/c/tools/dependency_tools.py:43-47 | with both sections tables or absent, the rows are those of the first section's entries, then the second's |
| Manifests.SectionNotTable | src/c/tools/dependency_tools.py:45 | a first section that is not a table raises on `.items()`, and nothing is kept |
| Manifests.ExtractPipfile | src/c/tools/dependency_tools.py:39-50 | `extract_pipfile_dependencies` computes the rows of `[packages]` then `[dev-packages]` of the loaded document |
| Manifests.PipfileRecords | src/c/tools/dependency_tools.py:43-47 | the Pipfile rows are the entry strings of `packages` followed by those of `dev-packages` |
| Manifests.PipfilePackagesNotTable | src/c/tools/dependency_tools.py:45-49 | a `packages` value that is not a table yields no row |
| Manifests.ExtractPyproject | src/c/tools/dependency_tools.py:52-69 | `extract_pyproject_dependencies` computes the Poetry or PEP 621 rows of the loaded document |
| Manifests.NestedIn | src/c/tools/dependency_tools.py:56 | `"tool" in d and "poetry" in d["tool"]` is false when `d` has no `tool` key, and otherwise, for a `tool` table, tells whether it holds `poetry` |
| Manifests.NestedIndex | src/c/tools/dependency_tools.py:57 | `d["tool"]["poetry"]` succeeds exactly when both levels are tables holding the keys, and gives the inner value |
| Manifests.WithoutKey | src/c/tools/dependency_tools.py:56-63 | removing a key leaves every other key's lookup unchanged |
| Manifests.PoetryShadowsProject | src/c/tools/dependency_tools.py:56-66 | when `[tool.poetry]` exists, `[project]` is never read: removing it changes nothing |
| Manifests.PoetryRecords | src/c/tools/dependency_tools.py:56-62 | Poetry rows are the entry strings of `dependencies` followed by those of `dev-dependencies` |
| Manifests.ProjectRecords | src/c/tools/dependency_tools.py:56-66 | without `[tool.poetry]` (no `tool` key, or a `tool` table such as `[tool.black]` without `poetry`), a `project.dependencies` list of strings gives exactly those strings to split |
| Manifests.PackageRecordFields | src/c/tools/dependency_tools.py:77-79 | a lock entry's row has the file's path, its `name` (or "") and its `version` (or "Unknown") |
| Manifests.PackageRecords | src/c/tools/dependency_tools.py:76-79 | at most one row per `package` item |
| Manifests.ExtractPoetryLock | src/c/tools/dependency_tools.py:71-82 | `extract_poetry_lock_dependencies` computes the rows of the loaded document's `package` items |
| Manifests.PackageRecordsOfTables | src/c/tools/dependency_tools.py:76-79 | when every item is a table, there is one row per item, in order |
| Manifests.PoetryLockRecords | src/c/tools/dependency_tools.py:76-79 | a lock file whose `package` items are tables gives one row per package, with the version taken verbatim |
| Manifests.PoetryLockWithoutPackages | src/c/tools/dependency_tools.py:76 | a lock file without `package` gives no row |
| Manifests.CondaPipStep | src/c/tools/dependency_tools.py:93-96 | a mapping with `pip` contributes its leading strings, and goes on only when all its items are strings |
| Manifests.GetCondaDependencies | src/c/tools/dependency_tools.py:84-99 | `get_conda_dependencies` computes the rows of the strings and nested `pip` lists of `dependencies` |
| Manifests.CondaNestedPip | src/c/tools/dependency_tools.py:89-96 | a conda string followed by a `pip` list gives the conda string and then the pip strings |
| Manifests.CondaSkipsOthers | src/c/tools/dependency_tools.py:90-93 | entries that are neither strings nor mappings with `pip` are skipped |
| Manifests.CondaPipRaises | src/c/tools/dependency_tools.py:94-98 | a `pip` item that is not a string ends the reader after the strings before it |
| Manifests.CondaNotMapping | src/c/tools/dependency_tools.py:88-89 | a document that is not a mapping (an empty file loads as `None`) yields nothing |
| Manifests.TomlLoad | src/c/tools/dependency_tools.py:4 | `tomli.load` succeeds only on a binary-mode file object, and then gives the parsed document |
| Manifests.PipfileDepsAsWritten | src/c/tools/dependency_tools.py:39-50 | as written (`toml.load` of the path string), the Pipfile reader returns no row, whatever the file holds |
| Manifests.PyprojectDepsAsWritten | src/c/tools/dependency_tools.py:52-69 | as written (`toml.load` of the path string), the pyproject reader returns no row, whatever the file holds |
| Manifests.PoetryLockDepsAsWritten | src/c/tools/dependency_tools.py:71-82 | as written (`toml.load` of a text-mode file), the poetry.lock reader returns no row, whatever the file holds |
| Manifests.PipfileLoadedFromBinary | src/c/tools/dependency_tools.py:39-50 | a one-package Pipfile loaded from a binary-mode file gives its row; as written it gives none |
| Requirements.RequirementsDeps | src/c/tools/dependency_tools.py:101-112 | at most one row per line |
| Requirements.GetPipDependencies | src/c/tools/dependency_tools.py:101-112 | `get_pip_dependencies` computes one row per kept line, in order |
| Requirements.RequirementsAppend | src/c/tools/dependency_tools.py:105-109 | the rows of `a + b` are those of `a`, then those of `b` |
| Requirements.SkippedLineIgnored | src/c/tools/dependency_tools.py:107 | inserting a blank or comment line changes nothing |
| Requirements.BlankAndCommentSkipped | src/c/tools/dependency_tools.py:106-107 | whitespace-only lines and lines starting with `#` after stripping are skipped |
| Requirements.UnpinnedRequirement | src/c/tools/dependency_tools.py:108-109 | a line without "==" is the stripped package with version "Unknown" |
| Requirements.PinRoundTrip | src/c/tools/dependency_tools.py:106-109 | round trip: the line `p==v` reads back as package `p`, version `v` |
| Requirements.PinnedFileRoundTrip | src/c/tools/dependency_tools.py:101-112 | a file of `p==v` lines reads back as exactly those pins, in order |
| Requirements.SecondPinDropped | src/c/tools/dependency_tools.py:106-109 | a line `p==v==c` reads as package `p`, version `v`: the text after the second "==" is lost |
| Requirements.ArbitraryEqualityPin | src/c/tools/dependency_tools.py:106-109 | a PEP 440 arbitrary-equality line `p===v` reads as package `p`, version `=v` |
| Requirements.EmptyPin | src/c/tools/dependency_tools.py:109 | `p==` gives an empty version, not "Unknown" |
| SetupPy.ParseSetupPy | src/c/tools/dependency_tools.py:25-37 | `parse_setup_py` computes the split rows of the string literals of every `setup(install_requires=[...])`, in walk order; `None` when parsing raises |
| SetupPy.StrLitsMember | src/c/tools/dependency_tools.py:35 | the strings kept from a list display are its string constants |
| SetupPy.KeywordsMember | src/c/tools/dependency_tools.py:32-36 | a string is collected from a call exactly when some keyword is `install_requires=[...]` listing it |
| SetupPy.CollectedIff | src/c/tools/dependency_tools.py:30-36 | a string is collected exactly when some visited node is a `setup` call listing it |
| SetupPy.SetupCallAnywhere | src/c/tools/dependency_tools.py:30-36 | `setup` calls are found at any depth of the tree |
| SetupPy.SingleSetupCall | src/c/tools/dependency_tools.py:25-37 | `setup(install_requires=[a, b])` gives the rows of `a` and `b`, in order |
| InlineImports.DropSpace | src/c/tools/dependency_tools.py:116 | `\s*` consumes the longest whitespace prefix |
| InlineImports.TakeName | src/c/tools/dependency_tools.py:116 | `[\w\d_\.]+` takes the longest prefix of name characters |
| InlineImports.Keyword | src/c/tools/dependency_tools.py:116 | `import` or `from` is recognised exactly when the text starts with it |
| InlineImports.ImportTargetOf | src/c/tools/dependency_tools.py:116-126 | an import line built from whitespace, a keyword, whitespace and a dotted name matches with that name |
| InlineImports.ImportTargetParts | src/c/tools/dependency_tools.py:116-126 | conversely, every matching line has that shape around the name matched |
| InlineImports.NotAnImport | src/c/tools/dependency_tools.py:116 | `importlib = 1` does not match: whitespace must follow the keyword |
| InlineImports.TopLevel | src/c/tools/dependency_tools.py:126 | `split(".")[0]` is the longest prefix without '.' |
| InlineImports.TopLevelOfDotted | src/c/tools/dependency_tools.py:126 | the top level of `a.b` is `a` |
| InlineImports.IsBuiltinModule | src/c/tools/dependency_tools.py:11-12 | a name is built in when it is compiled in, or else when `find_spec` finds nothing; the probe's raise is kept |
| InlineImports.ImportLineOutcome | src/c/tools/dependency_tools.py:124-128 | `import m` is skipped for a built-in or missing module, recorded for an installed one, and ends the file's scan when the probe raises |
| InlineImports.RelativeImportProbesEmptyName | src/c/tools/dependency_tools.py:124-127 | `from . import x` probes the empty module name |
| InlineImports.LineOutcomes | src/c/tools/dependency_tools.py:123-128 | each line is scanned on its own |
| InlineImports.ScanFiles | src/c/tools/dependency_tools.py:117-130 | the scan loop collects exactly the rows of every `.py` file up to its first raise |
| InlineImports.ListOf | src/c/tools/dependency_tools.py:131 | `list(dependencies)` holds each element of the set exactly once |
| InlineImports.ExtractPythonFileDependencies | src/c/tools/dependency_tools.py:114-131 | the rows returned are exactly those of the project's imports, each once |
| InlineImports.OutcomeRowsMember | src/c/tools/dependency_tools.py:121-130 | a row is recorded exactly when some line names its module and no earlier line raised |
| InlineImports.FileDepsMember | src/c/tools/dependency_tools.py:121-130 | the same, stated for a file's lines |
| InlineImports.UnionAllMember | src/c/tools/dependency_tools.py:115 | the set collects a row exactly when some file contributes it |
| InlineImports.ProjectDepsMember | src/c/tools/dependency_tools.py:117-130 | a row belongs to the project exactly when some `.py` file of the walk contributes it |
| Aggregator.FindFile | src/c/tools/dependency_tools.py:133-137 | the loop computes `find_file` |
| Aggregator.FindFileNone | src/c/tools/dependency_tools.py:133-137 | `find_file` returns `None` exactly when no directory lists the name |
| Aggregator.FindFileFirst | src/c/tools/dependency_tools.py:133-137 | what `find_file` returns is the name joined to the first directory listing it |
| Aggregator.DirectorySources | src/c/tools/dependency_tools.py:117-120 | each file of a directory is seen at its joined path with the lines read from it |
| Aggregator.WalkSourcesListed | src/c/tools/dependency_tools.py:117-120 | every file scanned is listed by some directory of the walk |
| Aggregator.Extract | src/c/tools/dependency_tools.py:151-158 | each manifest name is dispatched to its extractor; a `setup.py` that raises adds nothing |
| Aggregator.ExtractProjectDependencies | src/c/tools/dependency_tools.py:160-170 | the table is the manifest rows, in dictionary order, followed by the inline rows, each exactly once |
| Aggregator.SplitRecordsFrom | src/c/tools/dependency_tools.py:37 | every split row names the file it came from |
| Aggregator.PackageRecordsFrom | src/c/tools/dependency_tools.py:79 | every lock row names the lock file |
| Aggregator.RequirementsFrom | src/c/tools/dependency_tools.py:109 | every requirements row names the requirements file |
| Aggregator.ManifestRowsFrom | src/c/tools/dependency_tools.py:162-166 | a manifest that is not found adds nothing; the rows of one that is found all name the found path |
| Aggregator.ManifestsRowsFrom | src/c/tools/dependency_tools.py:162-168 | every manifest row names the path `find_file` found for some manifest |
| Aggregator.InlineRowFrom | src/c/tools/dependency_tools.py:170 | every inline row has version "Python" and names a `.py` file of the walk whose scan records it |
| AstUsage.ImportUsageVisitor.constructor | src/c/tools/analyze_python_ast.py:8-10 | a new visitor has no imports and no usages |
| AstUsage.ImportUsageVisitor.Visit | src/c/tools/analyze_python_ast.py:7-30 | visiting a tree appends the sightings of all its nodes, in pre-order |
| AstUsage.ImportUsageVisitor.VisitImport | src/c/tools/analyze_python_ast.py:12-15 | each alias is recorded with the node's line, then the children are visited |
| AstUsage.ImportUsageVisitor.VisitImportFrom | src/c/tools/analyze_python_ast.py:17-21 | each alias is recorded as `module.alias`, then the children are visited |
| AstUsage.ImportUsageVisitor.VisitAttribute | src/c/tools/analyze_python_ast.py:23-27 | `name.attr` is recorded when the value is a bare name, then the children are visited |
| AstUsage.ImportUsageVisitor.VisitCall | src/c/tools/analyze_python_ast.py:29-30 | a call records nothing itself; its children are visited |
| AstUsage.ImportUsageVisitor.GenericVisit | src/c/tools/analyze_python_ast.py:15 | `generic_visit` visits the children in field order |
| AstUsage.PreOrder | src/c/tools/analyze_python_ast.py:42 | the visit starts at the root |
| AstUsage.NodeImportsShape | src/c/tools/analyze_python_ast.py:12-21 | an import records one sighting per alias with the node's line; other nodes record no import |
| AstUsage.NodeUsage | src/c/tools/analyze_python_ast.py:23-27 | at most one usage per node: exactly for `Name.attr`, as `id.attr` at the node's line |
| AstUsage.CollectAppend | src/c/tools/analyze_python_ast.py:7-30 | the sightings of two runs of nodes are those of the first, then the second |
| AstUsage.VisitOrder | src/c/tools/analyze_python_ast.py:12-30 | a node's own sightings come before those of its subtrees |
| AstUsage.PreOrderNodes | src/c/tools/analyze_python_ast.py:7-30 | the visitor reaches exactly the nodes of the tree |
| AstUsage.VisitsWhatWalkYields | src/c/tools/analyze_python_ast.py:7-30 | the visitor reaches the same nodes as `ast.walk` |
| AstUsage.CollectMember | src/c/tools/analyze_python_ast.py:7-30 | a sighting is recorded exactly when some visited node records it |
| AstUsage.UsageRecorded | src/c/tools/analyze_python_ast.py:23-27 | a usage is recorded exactly when some node of the tree is `Name.attr` with that text and line |
| AstUsage.ImportRecorded | src/c/tools/analyze_python_ast.py:12-21 | an import is recorded exactly when some node of the tree records it |
| AstUsage.ChainedAttribute | src/c/tools/analyze_python_ast.py:23-27 | `a.b.c` records only `a.b` |
| AstUsage.RelativeImportRecorded | src/c/tools/analyze_python_ast.py:17-20 | `from . import x` records `None.x` |
| AstUsage.Tagged | src/c/tools/analyze_python_ast.py:44-48 | one row per sighting, carrying the path, the category, the name and the line |
| AstUsage.AppendTagged | src/c/tools/analyze_python_ast.py:44-48 | the loop appends the tagged rows of the sightings, in order |
| AstUsage.ReportFile | src/c/tools/analyze_python_ast.py:39-51 | a file that parses gives its import rows then its usage rows; one that fails gives a single `error` row with line -1 |
| AstUsage.ReportDirectory | src/c/tools/analyze_python_ast.py:35-51 | the loop over one directory raises exactly when one of its `.py` files cannot be opened, and otherwise gives its rows |
| AstUsage.NamesOpenIff | src/c/tools/analyze_python_ast.py:36-38 | a directory opens exactly when none of its `.py` files fails to open |
| AstUsage.DirectoriesOpenIff | src/c/tools/analyze_python_ast.py:34-38 | the walk opens exactly when no directory holds a `.py` file that fails to open |
| AstUsage.AnalyzeRepo | src/c/tools/analyze_python_ast.py:32-52 | the loop computes `analyze_repo` |
| AstUsage.RepoReportRaises | src/c/tools/analyze_python_ast.py:32-52 | `analyze_repo` raises exactly when some `.py` file cannot be opened, and otherwise returns the rows of every file in walk order |

## Left out

- Console output: the `print` of every `except` branch is left out. The
  model keeps only the rows returned.
- CSV output: writing the table to `all_dependencies_with_paths.csv` and
  the message returned by `extract_project_dependencies`
  (dependency_tools.py:172-177) are left out. Both are file and string
  output with no logic.
- PDF report: `generate_pdf_report` and `generate_ast_usage_pdf` build a
  PDF of `analyze_repo`'s rows. They are outside the analysis core.
- File system: it is given as values. These are the directories `os.walk`
  lists, the lines read from a path, and what `tomli`, `yaml.safe_load`
  and `ast.parse` make of a file.
  - `os.path.normpath` is a given function.
  - `os.path.join` is modelled for a root and a plain file name only.
  - A read error part-way through a file shows up as a shorter list of lines.
- Module lookup: `sys.builtin_module_names` and
  `importlib.util.find_spec` are given by the interpreter the tool runs
  in. The model takes them as an `Environment`.
- AstUsage.ReportFile: every parsed tree is visited in full. In the code,
  `visitor.visit(tree)` recurses two or three Python frames per tree level,
  so a tree several hundred levels deep (a long generated `1 + 1 + … + 1`)
  raises `RecursionError` inside the `try` and the file gives one `error`
  row. The interpreter's recursion limit is not modelled.
- PyText.IsWordChar: `\w` is modelled as the ASCII letters, digits and
  `_`. Python also matches Unicode letters and digits.
- PyValue.Display: values are displayed like Python's `str`.
  - Strings in containers use `repr` quoting, with `\`, `\n`, `\r`,
    `\t` and the quote escaped.
  - Floats, dates and other TOML scalars are out of the model. Other
    non-printable characters are not escaped.
- Duplicate keys in a TOML or YAML mapping are not modelled. Lookup finds
  the first entry, and the loaders reject or overwrite duplicates before
  the code sees them.
- `ast.Str`: it is modelled as the string-constant node. `ast.Str`
  matches exactly the string constants (Python 3.8-3.13; it is removed
  in 3.14), so only the removal is outside the model.
- AST nodes the code never inspects are modelled as `Other` with their
  children. Aliases and expression contexts have no children and are
  never matched, so they are left out of the tree.
- AstUsage.NodeImportsShape: the `level` of a relative `from` import is
  not modelled. The code never reads it; only the `module` text matters.
- InlineImports.ExtractPythonFileDependencies: the order of the returned
  list is not stated. Python's set iteration order is unspecified, and
  the contract states exact membership and no repetition.
- Aggregator.ExtractProjectDependencies: it states the inline tail by
  membership, for the same reason.
- Aggregator.Extract: `Pipfile`, `pyproject.toml` and `poetry.lock` are
  dispatched to the corrected readers, which take the parsed document. As
  written, each of those three contributes no row to
  `extract_project_dependencies` (see "## Findings").
- Manifests.PackageRecord: a lock entry's `name` and `version` are turned
  into text with `str`. The code appends the values themselves, so a
  non-string name or version would be a number or list in the row rather
  than its text.
- Aggregator.ManifestsRowsFrom: it states where the rows come from, not
  which extractor produced them. `Aggregator.Extract` and
  `Aggregator.ManifestRowsFrom` state the rest.

## Findings

| source | as written | input that shows it | evidently intended | confidence | as-written member | corrected member |
|---|---|---|---|---|---|---|
| src/c/tools/dependency_tools.py:42 | `toml.load(pipfile_path)`, where `toml` is `tomli`, passes the path string; `tomli.load` calls `.read()` on its argument, which a string lacks, so the `except` returns an empty list | any Pipfile, e.g. one whose `[packages]` holds `requests = "*"` | open the file in binary mode and load the document | high (not executed) | Manifests.PipfileDepsAsWritten | Manifests.PipfileLoadedFromBinary |
| src/c/tools/dependency_tools.py:55 | `toml.load(pyproject_path)` passes the path string, with the same effect | any pyproject.toml with `[tool.poetry.dependencies]` or `project.dependencies` | open the file in binary mode and load the document | high (not executed) | Manifests.PyprojectDepsAsWritten | Manifests.PoetryRecords |
| src/c/tools/dependency_tools.py:74-75 | `poetry.lock` is opened in text mode; tomli ≥ 2.0 refuses a text-mode file with a `TypeError` in `tomli.load`, so the `except` returns an empty list | any poetry.lock with a `[[package]]` table | open the file with mode "rb" | high (not executed) | Manifests.PoetryLockDepsAsWritten | Manifests.PoetryLockRecords |

Each as-written member states that its reader returns no row, whatever
the file holds. The rest of the model, `Aggregator` included, uses the
corrected readers, which take the parsed document.
