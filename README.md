# RBAC naming and kustomization checker, modelled in Dafny

`check.py` lints a tree of Kubernetes manifests under `clusters/production/namespaces`.
It checks two things:

- **Naming.** Every `Role` or `RoleBinding` must live in a file named `name-lastname.yml`.
  Its `metadata.name` must be `name.lastname`, which is the file's stem with `-` turned
  into `.`.
- **Kustomization completeness.** Every `kustomization.yml` must declare only resources
  that exist. It must also declare every sibling `.yml` file.

The checker collects its findings in one append-only list. It exits with status 1 when the
list is non-empty and 0 otherwise.

The model has seven modules:

- `Yaml` (`yaml.dfy`): the YAML values the checker inspects. It also defines the two parse
  outcomes: a multi-document stream, and a single document.
- `Report` (`report.dfy`): the findings, one constructor per message the checker prints. It
  also holds the exit status and the concatenation of per-file findings.
- `Naming` (`naming.dfy`): the pure string rules of lines 7-28.
  - The two regular expressions are written as character scans.
  - Lemmas characterise each scan as the shape its expression describes.
- `Rules` (`rules.dfy`): the per-document rule of lines 44-56, as a specification function
  and as the loop that appends findings.
- `Kustomize` (`kustomize.dfy`): the kustomization rule of lines 59-83, with its two loops.
- `Driver` (`driver.dfy`): the loop over files in `main` and the exit status.
- `Scenarios` (`scenarios.dfy`): worked examples, each stated for every directory and every
  pair of plain name segments.

Where the checker's documented behaviour and its code differ, the model follows the code:

- A file whose multi-document load fails stops at the `continue` on line 42. If that file is
  `kustomization.yml`, the kustomization check never runs for it, so it gets exactly one
  parse error, not a second one from line 63.
- `alice_smith.yml` holding a Role named `alice.smith` gets two findings, not one. The file
  implies the expected name `alice_smith`, so the object-name rule fails as well
  (`Scenarios.UnderscoreFilename`).
- The comment on line 8 says the filename pattern matches `name_lastname.yml`. The
  expression on line 9 requires a `-` and rejects every `_`.
- Each `[^_/]+` segment of the filename pattern may itself contain `-` and `.`.
- The object-name rule on its own accepts the name `a.c` in a file named `a.c.yml`, which
  has no hyphen at all (`Scenarios.DottedFilename`). Only together with the filename rule
  do the two rules force `a-c.yml` and `a.c` with plain segments
  (`Naming.BothConventionsIff`).
- Python's `$` also matches just before a final newline. The model keeps that behaviour
  (`Naming.FilenamePattern`, `Naming.DotPattern`). `Naming.FilenamePatternNoNewline` states
  the plain end-of-string reading for names without a newline.

## Model

| member | source | states |
|---|---|---|
| Naming.Basename | check.py:9 | the basename holds no '/', is a suffix of the path, and is preceded by '/' when shorter than the path |
| Naming.BasenameOfJoin | check.py:9 | the basename of `dir/name` is `name` whenever `name` holds no '/' |
| Naming.FilenamePatternIff | check.py:7-9 | the filename rule accepts a basename exactly when it is `A-B.yml` (or that with one final newline), with A and B non-empty and free of '_' and '/'; A and B may contain '-' or '.' |
| Naming.FilenamePatternNoNewline | check.py:7-9 | for a basename without a newline, the rule accepts exactly `A-B.yml` with A and B non-empty and free of '_' and '/' |
| Naming.FilenamePatternChars | check.py:9 | an accepted basename contains a '-' and no '_', so the line-8 `name_lastname` reading is never accepted |
| Naming.Stem | check.py:13 | `rsplit(".", 1)[0]`: a prefix of the basename; the whole basename when it has no '.'; otherwise everything before its last '.' |
| Naming.ReplaceHyphens | check.py:14 | `replace("-", ".")`: same length, every '-' becomes '.', every other character is kept, and no '-' remains |
| Naming.ExpectedObjectName | check.py:12-15 | the expected name is as long as the stem of the basename and holds no '-' |
| Naming.ExpectedOfYml | check.py:12-15 | the expected name of `dir/body.yml` is `body` with every '-' turned into '.' |
| Naming.ReplaceWithoutHyphens | check.py:14 | a stem without '-' is its own expected name |
| Naming.DotShapeIff | check.py:27 | the dot scan holds exactly of `A.C` with A and C non-empty and free of '.' |
| Naming.DotPatternIff | check.py:27-28 | the object-name pattern accepts a name exactly when it has one '.' that is neither its first nor its last character (a final newline included) |
| Naming.NameMatchesFileIff | check.py:22-28 | the object-name rule passes exactly when the name equals the expected name and the stem has exactly one '-' or '.', which is neither its first nor its last character |
| Naming.BothConventionsIff | check.py:7-28 | both rules pass exactly when the basename is `a-c.yml` (or with one final newline) and the name is `a.c`, for non-empty a and c free of '_', '/', '.' and '-' (both directions) |
| Rules.ObjectName | check.py:18-19 | `metadata.name`, or "" when `metadata` or `name` is absent |
| Rules.MissingNameFails | check.py:18-28 | an object without `metadata` or without `name` never passes the object-name rule |
| Rules.RuleFindings | check.py:49-56 | the two sub-rules add one finding each exactly when their verdict is false, the filename finding first |
| Rules.DocumentFindings | check.py:44-56 | a non-mapping, or a mapping whose `kind` is not exactly Role or RoleBinding, adds nothing; an RBAC object adds 0, 1 or 2 findings; the filename finding is present exactly when the filename rule fails and the object-name finding exactly when that rule fails; with two findings the filename one comes first |
| Rules.DocsFindingsEmpty | check.py:44-56 | a file's documents add nothing exactly when every RBAC object among them passes both rules |
| Rules.CheckDocument | check.py:45-56 | the loop body appends exactly the document's findings to the list |
| Rules.CheckDocuments | check.py:44-56 | the document loop appends the documents' findings in document order |
| Kustomize.Resources | check.py:67 | `set(k.get("resources", []))`: empty when absent; the strings of a list; the one-character strings of a string; the keys of a mapping |
| Kustomize.Chars | check.py:67 | `set` of a string is the set of its one-character strings |
| Kustomize.ListStrings | check.py:67 | `set` of a list of strings holds exactly the strings in the list |
| Kustomize.CheckResources | check.py:67-72 | the list keeps its prefix, and each new finding is a "not found" for this file; there is one for a resource exactly when it is declared and the existence test rejects it; their number is the number of such resources, so duplicates collapse |
| Kustomize.UndeclaredFindingsAsSet | check.py:74-83 | the listing adds only "missing declaration" findings for this file, one for an entry exactly when it is not `kustomization.yml`, ends in `.yml` and is not declared |
| Kustomize.UndeclaredFindingsEmpty | check.py:74-83 | the listing adds nothing exactly when every `.yml` entry other than `kustomization.yml` is declared |
| Kustomize.CheckListing | check.py:74-83 | the listing loop appends the undeclared entries' findings in listing order |
| Kustomize.CheckKustomization | check.py:59-83 | the list keeps its prefix; a failed load adds one parse error; otherwise the "not found" findings come first, then the listing findings |
| Kustomize.KustomizationClean | check.py:59-83 | the kustomization rule adds nothing exactly when the file loads, every declared resource exists and every sibling `.yml` is declared |
| Driver.FileReportEmpty | check.py:36-83 | a file adds nothing exactly when it loads, all its RBAC objects pass both rules, and, if it is `kustomization.yml`, it is complete |
| Driver.CheckFile | check.py:36-83 | the list keeps its prefix; a load failure adds exactly one parse error and skips every other check of that file; otherwise the document findings come first, then the kustomization findings, only for a basename exactly `kustomization.yml` |
| Driver.Run | check.py:31-92 | each file's findings are appended after the earlier files' findings; every file is reported even after another fails to load; the findings of any first k files are a prefix of the final list; the status is 0 exactly when every file passes, which includes an empty tree |
| Driver.RunStatus | check.py:85-92 | the run reports nothing exactly when every file passes |
| Report.ExitStatus | check.py:85-92 | the status is 0 or 1, and it is 1 exactly when the list is non-empty |
| Report.ConcatEmpty | check.py:85-89 | the whole list is empty exactly when every file's findings are empty |
| Report.ConcatPrefix | check.py:34-83 | the findings of the first k files are a prefix of the whole list |
| Scenarios.ConformingObject | check.py:44-56 | `dir/a-c.yml` holding a Role or RoleBinding named `a.c` adds nothing |
| Scenarios.ForeignName | check.py:44-56 | `dir/a-c.yml` holding an RBAC object under any other name adds exactly one object-name finding, expecting `a.c` |
| Scenarios.UnderscoreFilename | check.py:44-56 | `dir/a_c.yml` holding an RBAC object named `a.c` adds a filename finding, then an object-name finding expecting `a_c` |
| Scenarios.DottedFilename | check.py:7-28 | `dir/a.c.yml` passes the object-name rule with the name `a.c` but fails the filename rule |
| Scenarios.UndeclaredSibling | check.py:67-83 | a kustomization declaring only the existing `a` beside `a` and `b` reports exactly that `b` is undeclared |
| Scenarios.MissingResource | check.py:67-83 | a kustomization alone in its directory declaring one absent resource reports exactly that resource as not found |

## Left out

- Directory walk and file I/O: `glob` (line 33), `open` (lines 37, 61), `os.listdir` (line 74) and `os.path.exists` (line 71) are not modelled. Each file arrives with its path, both parse outcomes, its directory listing and an existence test.
- Path resolution: `os.path.dirname` and `os.path.join` (lines 60, 70) are hidden behind the per-file listing and existence test. A resource containing `/` or `..` resolves however that test says.
- YAML parsing: `yaml.safe_load_all` and `yaml.safe_load` (lines 39, 63) are a foreign library. Their outcomes are inputs, either an error message or documents over a small value union (null, bool, int, string, list, mapping with string keys). Floats, dates, anchors and non-string keys are not represented.
- Output text: the messages printed by `print` and the `exit` call (lines 41, 50-55, 65, 72, 81-92) are not modelled. Each message is a `Finding` constructor carrying the values it interpolates, and the exit code is a returned integer.
- Crashes: the uncaught exceptions are preconditions rather than behaviour. These cover `metadata` that is not a mapping (line 19), a `name` that is not a string (line 28), an empty or non-mapping kustomization (line 67), and `resources` that are not a list of strings, a string or a mapping (lines 67, 70).
- Kustomize.CheckResources: the "not found" findings are stated as a set with their count, not their order, because Python walks the resource set in hash order. Kustomize.KustomizationReport states them the same way.
- Kustomize.CheckListing: the listing is taken in whatever order `os.listdir` returns it, and that order is kept.
- Kustomize.Resources: duplicate declarations collapse as in Python's `set`. Equality between declared names and directory entries is exact string equality; Unicode normalisation is not modelled.
