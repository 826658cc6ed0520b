# Karasu project bootstrapper — a Dafny model

Karasu sets up a Python project's tooling in one run. It writes or merges
`.editorconfig`, `.pre-commit-config.yaml` (Ruff hooks, Black unless Ruff-only),
`pyproject.toml` (build system, `[project]` and `[project.scripts]` tables, Ruff
and Black settings), `.github/workflows/ci.yml` and `requirements-dev.txt`.
Existing files are merged, not replaced. Each merge adds only what is missing
and reports whether it changed anything, so a second run changes nothing. The
tool can also initialise a project (name, description, version and a package
with a `main.py`). It can move a flat `main.py` into a package named after the
directory.

The model has six modules:

- `Text` (`text.dfy`): the Python string operations the merges use, on ASCII.
  It covers `in`, `rstrip`/`strip`, `replace` (all occurrences, or the first
  one), and `split("\n")`/`"\n".join` with their round trips.
- `Templates` (`templates.dfy`): the file templates, with lemmas naming the
  markers each one contains.
- `Helpers` (`helpers.dfy`): name normalisation, name inference from the
  directory, version validation and tool-command lookup.
- `Engine` (`engine.dfy`): the merge engine of `karasu/main.py`. Each
  `ensure_*` is a pure function from the file's current text, or `None` for a
  missing file, to the new text and the "changed" flag (`Merge`). A predicate
  `*Complete` says what a finished file holds. Lemmas prove the same four
  facts for every merge:
  - one run makes the file complete (`*Establishes`);
  - a second run is a no-op (`*Idempotent`);
  - "changed" is reported exactly when the file was incomplete
    (`*ChangedIffIncomplete`);
  - "changed" is reported exactly when the text differs (`*ChangedIffTextDiffers`).

  Further lemmas say where the blocks go and that the old text is kept. The
  `[project.scripts]` insertion loop is a method proved against the function
  that specifies its scan. `CiMergeFixed` is `ensure_ci` with the install-line
  patch corrected (see Findings); the workspace uses it.
- `Legacy` (`legacy.dfy`): the older single-file script `main.py`. Its
  `ensure_pyproject` and `ensure_ci` differ from the engine's, and lemmas say
  where the two agree and where they do not.
- `Workspace` (`workspace.dfy`): the project directory as a class `Store`. It
  holds a map from relative path to file contents and the set of created
  directories. It has one method per `ensure_*`, each proved to write exactly
  the engine's result (or nothing on a dry run). Further methods cover the
  package set-up of `initialize_project` and the flat-to-package conversion of
  `main`.

## Model

| member | source | states |
|---|---|---|
| Text.RStrip | karasu/main.py:215 | `str.rstrip()`: the result is a prefix, only whitespace was removed, and it does not end in whitespace |
| Text.JoinLines | karasu/main.py:441-455 | `"\n".join(txt.split("\n")) == txt` for every text, so splitting into lines loses nothing |
| Text.LinesJoin | karasu/main.py:441-455 | splitting the join of newline-free lines gives back those lines |
| Text.ReplaceOnceSplices | karasu/main.py:428 | `replace(pat, pat + ext, 1)` inserts `ext` right after the first occurrence of `pat` and changes nothing else |
| Text.ReplaceAllSplices | karasu/main.py:523 | `replace(pat, pat + ext)` inserts `ext` right after the first occurrence of `pat` and goes on the same way in the text after it |
| Text.ReplaceAbsent | karasu/main.py:523 | `replace` on a text without the pattern returns the text unchanged |
| Text.ReplaceBeforeKeeps | karasu/main.py:523 | inserting text in front of every occurrence of `pat` keeps every string that lacks `pat`'s first character |
| Templates.RuffBlockMarker | karasu/main.py:64-90 | the Ruff block starts with `[tool.ruff]` and carries the target-version line for any version slot |
| Templates.BlackBlockMarker | karasu/main.py:92-107 | the Black block starts with `[tool.black]` and carries its target-version line |
| Templates.CiTemplateMarkers | karasu/main.py:114-147 | the CI workflow runs `ruff format --check` and `ruff check` and installs Ruff, whatever is filled into its slots |
| Templates.CiTemplateBlackMarkers | karasu/main.py:114-153 | filled with the Black slots, the workflow installs Black and runs `black --check` |
| Templates.MainPyTemplateFilled | karasu/main.py:157-185 | the package `main.py` template, once formatted, contains the tool's name and description |
| Templates.PrecommitRuffMarker | karasu/main.py:49-56 | the Ruff hook block names `ruff-pre-commit` and starts with `repos:` |
| Templates.PrecommitBlackMarker | karasu/main.py:58-62 | the Black hook block names `psf/black` |
| Helpers.ValidateName | karasu/main.py:232-240 | `validate_name` always returns a valid name: non-empty, only `[a-z0-9-]`, no leading, trailing or doubled hyphen |
| Helpers.ValidNameIsFixed | karasu/main.py:232-240 | an already valid name is returned unchanged |
| Helpers.ValidateNameIdempotent | karasu/main.py:232-240 | normalising twice is normalising once |
| Helpers.ValidateNameFallback | karasu/main.py:240 | a name with no letter or digit normalises to `my-tool` |
| Helpers.ValidateNameExample | karasu/main.py:232-240 | `"My Tool_Name!!"` normalises to `"my-tool-name"` |
| Helpers.KeepNameChars | karasu/main.py:235 | the character filter leaves only `[a-z0-9-]`, never lengthens the text, leaves a text made only of those characters unchanged, and drops a single character outside them |
| Helpers.CollapseHyphens | karasu/main.py:237 | runs of hyphens collapse: no doubled hyphen remains, the first character and the character set are kept, and a text without a doubled hyphen is unchanged |
| Helpers.StripHyphens | karasu/main.py:239 | `strip("-")`: a slice of the input with no hyphen at either end, where everything cut off at either end is a hyphen; unchanged when there is none |
| Helpers.CollapseHyphensDouble | karasu/main.py:237 | a doubled hyphen anywhere in the text collapses exactly like a single one |
| Helpers.KeepNameCharsAppend | karasu/main.py:235 | the character filter works character by character: it distributes over concatenation |
| Helpers.InferNameFromDirectory | karasu/main.py:227-229 | the directory name lowered, with spaces and underscores turned into hyphens, character by character |
| Helpers.ValidateInferredName | karasu/main.py:227-240 | normalising the inferred name gives the same result as normalising the directory name itself |
| Helpers.PackageName | karasu/main.py:347 | the package name is the tool name with every hyphen turned into an underscore, and nothing else changed |
| Helpers.PackageNameOfValidName | karasu/main.py:347 | the package name of a valid name holds only lower-case letters, digits and underscores |
| Helpers.DigitRun | karasu/main.py:302-307 | the run of digits at the front, for the `\d+` of the semver pattern |
| Helpers.ValidateVersion | karasu/main.py:302-307 | `validate_version` returns the version unchanged whether it matches the semver pattern or not |
| Helpers.ToolCommand | karasu/main.py:609-623 | the tool next to the interpreter when it exists, else `python -m` with the module name, each hyphen of the tool turned into an underscore, else the bare tool name |
| Engine.AppendBlockKeeps | karasu/main.py:459-473 | appending a block after `rstrip` keeps every marker of the old text that does not end in whitespace |
| Engine.AppendBlockAdds | karasu/main.py:459-473 | appending a block adds every marker of the block |
| Engine.PrecommitEstablishes | karasu/main.py:205-224 | after one run the hook file has the Ruff hooks, and the Black hook unless Ruff-only |
| Engine.PrecommitChangedIffIncomplete | karasu/main.py:205-218 | an existing hook file is reported changed exactly when a hook is missing, and is left as it is otherwise |
| Engine.PrecommitIdempotent | karasu/main.py:205-224 | a second run reports no change and leaves the text as it is |
| Engine.PrecommitChangedIffTextDiffers | karasu/main.py:205-218 | "changed" is reported exactly when the text differs |
| Engine.PrecommitKeepsText | karasu/main.py:211-216 | the old text, right-stripped, survives the merge |
| Engine.PrecommitPrependsRuff | karasu/main.py:211-213 | without Ruff hooks, the result opens with the Ruff hook block's `repos:` head for every old text, including an empty or blank one, where the final `rstrip` also trims the block's last newline |
| Engine.PrecommitRuffBeforeText | karasu/main.py:211-216 | without Ruff hooks, the result starts with the Ruff block, a newline and then the old text, right-stripped, whatever the Black step adds |
| Engine.PrecommitRuffOnly | karasu/main.py:214-224 | with `ruff_only` only the Ruff step acts; the Black hook is never written |
| Engine.Undotted | karasu/main.py:463 | `pyver.replace(".", "")` keeps every character but the dots, leaves a dot-free version unchanged and turns a lone dot into nothing |
| Engine.UndottedAppend | karasu/main.py:463 | removing the dots works piece by piece: it distributes over concatenation |
| Engine.TargetVersion | karasu/main.py:463 | the target version is `py` followed by the version's characters without dots |
| Engine.UndottedAroundDot | karasu/main.py:463 | a `major.minor` version whose parts have no dot becomes the two parts joined |
| Engine.TargetVersionExample | karasu/main.py:463 | version `3.11` gives the target version `py311` |
| Engine.ProjectBlockMarkers | karasu/main.py:415-425 | the `[project]` block holds both table headers and the entry-point line for the package |
| Engine.ScriptsInsertIndex | karasu/main.py:441-453 | the insertion index is the first line that opens a non-project table after a `[project` line, or the line count when there is none |
| Engine.ScriptsInsertIndexLine | karasu/main.py:444-453 | at the index, the line starts with `[` after stripping, not with `[project`, and some earlier line opened `[project` |
| Engine.FindScriptsInsertIndex | karasu/main.py:441-453 | the scanning loop returns exactly the index its specification picks |
| Engine.InsertScriptsSplices | karasu/main.py:441-455 | inserting the scripts block as a line is a splice of `"\n" + block` at a line boundary; all other text is unchanged |
| Engine.ProjectStepKeeps | karasu/main.py:415-456 | the project-table step keeps every table header already present |
| Engine.ProjectStepEstablishes | karasu/main.py:415-456 | with a project name, the step leaves both `[project]` and `[project.scripts]` in the text |
| Engine.ProjectStepChanged | karasu/main.py:415-456 | the step changes the text exactly when a project name is given and one of the two headers is missing |
| Engine.ProjectBlockPlacement | karasu/main.py:426-430 | the project block goes right after the first `[build-system]`, or in front of the text when there is none |
| Engine.ScriptsBlockPlacement | karasu/main.py:432-456 | with `[project]` but no scripts table, the scripts block is spliced in at the boundary the scan found |
| Engine.TableStepsEstablish | karasu/main.py:458-473 | after the Ruff and Black steps, `[tool.ruff]` is present, and `[tool.black]` unless Ruff-only |
| Engine.TableStepsKeepBoth | karasu/main.py:458-473 | the Ruff and Black steps keep every table header already present |
| Engine.FreshPyprojectComplete | karasu/main.py:477-499 | a new `pyproject.toml` holds every table the run asks for |
| Engine.ExistingPyprojectComplete | karasu/main.py:410-476 | a merged `pyproject.toml` holds every table the run asks for |
| Engine.PyprojectEstablishes | karasu/main.py:385-499 | after one run, `pyproject.toml` is complete: Ruff, Black unless Ruff-only, and both project tables when a name is given |
| Engine.PyprojectChangedIffIncomplete | karasu/main.py:410-476 | an existing file is reported changed exactly when a table is missing, and is left as it is otherwise |
| Engine.PyprojectIdempotent | karasu/main.py:385-499 | a second run reports no change and leaves the text as it is |
| Engine.PyprojectChangedIffTextDiffers | karasu/main.py:410-476 | "changed" is reported exactly when the text differs |
| Engine.PyprojectTargetVersion | karasu/main.py:459-499 | when the Ruff block is written, it carries `py` plus the version's digits as its target version |
| Engine.CiChangedIffIncomplete | karasu/main.py:502-541 | an existing workflow is reported changed exactly when a Ruff check is missing, or, without `ruff_only`, the Black check is missing or `pip install ruff` appears without `pip install black`; it is left as it is otherwise |
| Engine.FreshCiComplete | karasu/main.py:539-541 | a new workflow runs all checks the run asks for |
| Engine.AppendedCiComplete | karasu/main.py:509-516 | a workflow without the Ruff checks gets the whole job appended, which makes it complete |
| Engine.PatchInstallEffect | karasu/main.py:522-523 | when no Ruff check sits on the install line (`SplitsRuffCheck`), the install-line patch adds the Black install and keeps both Ruff checks |
| Engine.PatchInstallSplices | karasu/main.py:522-523 | the patch puts the Black install line right after the first `pip install ruff` and patches the rest of the text the same way; without Ruff installed, or with Black installed, it changes nothing |
| Engine.AddBlackStepAdds | karasu/main.py:525-527 | the Black step is appended after the old text, which stays in front |
| Engine.BlackStepCiComplete | karasu/main.py:517-528 | when no Ruff check sits on the install line (`SplitsRuffCheck`), patching the install line and adding the Black step makes the workflow complete |
| Engine.BlackDepCiComplete | karasu/main.py:529-535 | when no Ruff check sits on the install line (`SplitsRuffCheck`), adding the missing Black install to a workflow with the Black step makes it complete |
| Engine.CiEstablishes | karasu/main.py:502-541 | after one run the workflow is complete |
| Engine.CiIdempotent | karasu/main.py:502-541 | a second run reports no change and leaves the text as it is |
| Engine.CiChangedIffTextDiffers | karasu/main.py:506-538 | "changed" is reported exactly when the text differs |
| Engine.CiAppendsOnly | karasu/main.py:506-538 | when the install line is not patched, the old text, right-stripped, stays in front |
| Engine.CiRuffOnly | karasu/main.py:504-516 | with `ruff_only` no Black slot is filled and nothing but the appended job is written |
| Engine.CiSplitCheckReappends | karasu/main.py:509-528 | on `ruff format --check .\npip install ruff check .\n` the first run cuts `ruff check` in two, so the second run reports a change again |
| Engine.CiMergeFixed | karasu/main.py:502-541 | the corrected merge agrees with the code as written on every workflow without a Ruff check on the install line |
| Engine.InstallBeforeEffect | karasu/main.py:522-534 | putting the Black install in front of `pip install ruff` keeps both Ruff checks and the Black check, and installs Black |
| Engine.CiUnpatchedComplete | karasu/main.py:506-538 | when no install line needs patching, one run makes any workflow complete |
| Engine.CiFixedEstablishes | karasu/main.py:502-541 | after one run of the corrected merge the workflow is complete, with no assumption on its text |
| Engine.CiFixedIdempotent | karasu/main.py:502-541 | a second run of the corrected merge reports no change and leaves the text as it is |
| Engine.CiFixedChangedIffTextDiffers | karasu/main.py:506-538 | the corrected merge reports "changed" exactly when the text differs |
| Engine.Want | karasu/main.py:546 | the wanted entries: Ruff, pre-commit, and Black unless Ruff-only, in that order |
| Engine.DistName | karasu/main.py:549 | `w.split('>')[0]`: the longest prefix without `>` |
| Engine.WantNames | karasu/main.py:546-549 | the three entries' names are `ruff`, `pre-commit` and `black` |
| Engine.Missing | karasu/main.py:549 | the missing entries are exactly the wanted ones whose name starts no line, kept in order |
| Engine.RequirementsChangedIffIncomplete | karasu/main.py:547-553 | an existing file is reported changed exactly when an entry is missing, and is left as it is otherwise |
| Engine.FreshRequirementsComplete | karasu/main.py:558-559 | a new file lists every wanted entry at a line start |
| Engine.ExistingRequirementsComplete | karasu/main.py:547-556 | a merged file lists every wanted entry at a line start |
| Engine.RequirementsEstablishes | karasu/main.py:544-559 | after one run, every wanted entry starts a line |
| Engine.RequirementsIdempotent | karasu/main.py:544-559 | a second run reports no change and leaves the text as it is |
| Engine.RequirementsChangedIffTextDiffers | karasu/main.py:547-556 | "changed" is reported exactly when the text differs |
| Engine.RequirementsAppendsLines | karasu/main.py:552-555 | the merged file's lines are the old (headed, stripped) lines, then the missing entries in wanted order, then an empty last line |
| Engine.FreshRequirementsLines | karasu/main.py:558 | a new file's lines are the header, the wanted entries and an empty last line |
| Engine.RequirementsHeader | karasu/main.py:553-555 | the header goes in front unless the stripped text starts with `#`; the old text survives either way |
| Engine.RequirementsNamePrefix | karasu/main.py:549 | the Ruff entry is missing exactly when no line starts with `ruff`, so a line pinning another version, such as `ruff==0.5.0`, counts as present |
| Legacy.PyprojectMatches | main.py:188-220 | the older `ensure_pyproject` is the newer one run without project metadata |
| Legacy.PyprojectEstablishes | main.py:188-220 | after one run the Ruff table is there, and the Black table unless Ruff-only |
| Legacy.PyprojectIdempotent | main.py:188-220 | a second run reports no change and leaves the text as it is |
| Legacy.PyprojectAppendsOnly | main.py:193-206 | the blocks are only appended: the old text, right-stripped, stays in front |
| Legacy.PyprojectTargetVersion | main.py:193-220 | when the Ruff block is written, its target version is `py` plus the version's digits |
| Legacy.PyprojectRuffOnly | main.py:201-220 | with `ruff_only` only the Ruff block is ever written |
| Legacy.CiChangedIffIncomplete | main.py:223-247 | an existing workflow is reported changed exactly when a check the run asks for is missing (Black's only without `ruff_only`) |
| Legacy.CiEstablishes | main.py:223-250 | after one run the workflow has every check the run asks for (Black's only without `ruff_only`), with no assumption on its text |
| Legacy.CiIdempotent | main.py:223-250 | a second run reports no change and leaves the text as it is |
| Legacy.CiAppendsOnly | main.py:227-245 | the older script only appends: the old text, right-stripped, stays in front |
| Legacy.CiMatches | main.py:223-250 | where Black is already installed, or Ruff is not, the older and newer scripts agree |
| Legacy.CiDiffersOnInstall | main.py:236-241 | a workflow with all three checks but no Black install is left alone by the older script and patched by the newer one |
| Legacy.CiRuffOnly | main.py:223-250 | with `ruff_only` nothing but the appended job is ever written |
| Workspace.PackagePaths | karasu/main.py:348-351 | a non-empty package name gives distinct `main.py` and `__init__.py` paths, neither of them the root `main.py` |
| Workspace.ConvertAsWrittenLosesMain | karasu/main.py:799-820 | with an empty directory name, the conversion as written deletes the only `main.py` |
| Workspace.Convert | karasu/main.py:799-820 | the corrected conversion agrees with the code as written for every non-empty directory name |
| Workspace.ConvertMoves | karasu/main.py:799-820 | the conversion moves the root `main.py` into the package, adds an empty `__init__.py` if absent, and touches nothing else |
| Workspace.ChooseLayout | karasu/main.py:784-829 | a root `main.py` with no package detected yields the name inferred from the directory and, as package name, that name with hyphens turned into underscores; otherwise the detected package is kept |
| Workspace.ResolveInit | karasu/main.py:320-347 | each value is the argument when given, else the stripped prompt answer when non-empty, else the default (the inferred directory name, `CLI tool`, `0.1.0`); the name is then normalised and valid, and the package name is it with hyphens turned into underscores |
| Workspace.ResolveInitDefaultName | karasu/main.py:320-327 | with no name and an empty answer, the name is the directory's name, normalised |
| Workspace.InitializedFilesEffect | karasu/main.py:350-380 | `main.py` is written from the template exactly when missing or holding `my-tool`; `__init__.py` appears only in a new directory; nothing else changes |
| Workspace.InitializedFilesIdempotent | karasu/main.py:350-380 | setting the package up twice gives the same files as once |
| Workspace.Store.UpsertFile | karasu/main.py:189-195 | a file is written only when absent and not a dry run; the result says whether it was absent |
| Workspace.Store.EnsureEditorconfig | karasu/main.py:198-202 | `.editorconfig` is created from its template when absent and never edited |
| Workspace.Store.EnsurePrecommit | karasu/main.py:205-224 | the hook file becomes the engine's merge result unless dry; the result is the merge's "changed" |
| Workspace.Store.EnsurePyproject | karasu/main.py:385-499 | `pyproject.toml` becomes the engine's merge result unless dry; the result is the merge's "changed" |
| Workspace.Store.ProjectTables | karasu/main.py:414-456 | the imperative project-table step, with its scanning loop, computes the engine's project step |
| Workspace.Store.MergePyproject | karasu/main.py:410-476 | the imperative merge of an existing file computes the engine's merge |
| Workspace.Store.EnsureCi | karasu/main.py:502-541 | the workflow becomes the corrected merge's result unless dry, and a new one creates `.github/workflows` |
| Workspace.Store.EnsureRequirements | karasu/main.py:544-559 | `requirements-dev.txt` becomes the engine's merge result unless dry |
| Workspace.Store.LegacyEnsurePyproject | main.py:188-220 | the older script's `pyproject.toml` merge, written back unless dry |
| Workspace.Store.LegacyEnsureCi | main.py:223-250 | the older script's workflow merge, written back unless dry |
| Workspace.Store.InitializePackage | karasu/main.py:347-380 | on a real run the package directory exists afterwards and the files are the package set-up's result; a dry run changes nothing |
| Workspace.Store.SetUpPackage | karasu/main.py:357-380 | the step-by-step set-up of the package directory gives exactly the specified files |
| Workspace.Store.ResolveLayout | karasu/main.py:784-829 | the layout is the one chosen; on a real conversion the files are the corrected conversion's result; otherwise nothing changes |

## Left out

- The virtual environment and dependency installation (`ensure_venv_and_deps`) are not modelled. They run `python -m venv` and `pip`.
- `format_code` and `install_precommit_hooks` are not modelled. They run Ruff, Black and pre-commit as subprocesses, and their result depends only on exit codes.
- The command-line parsing, the printed messages and the summary of `main` are not modelled. The order of the `ensure_*` calls in `main` is not modelled beyond each call on its own.
- Interactive prompts: the answers are parameters of `Workspace.ResolveInit`. Cancelling with EOF or Ctrl-C exits the program, and that exit is not modelled.
- `detect_package_structure` is not modelled. It reads the directory and parses TOML. Its result (a package name, or none) is a parameter of `Workspace.ChooseLayout`.
- The `iterdir` lookup in `main` for a package name detected without a path is not modelled. `detect_package_structure` always returns both the name and the path, or neither, so that branch never runs.
- Workspace.Store.UpsertFile: `mkdir(parents=True)` records only the immediate directory, not each ancestor.
- Workspace.Store: the set `dirs` is not tied to the parents of the paths in `files`; a directory exists in the model exactly when a method recorded it. `package_path.exists()` in `initialize_project` is modelled as membership in `dirs`.
- Operating-system errors (permissions, a directory where a file is expected) are not modelled.
- Text is modelled on ASCII. Python's Unicode `lower()` and `isspace()` are approximated by their ASCII behaviour.
- `get_tool_command`'s Windows branch (`.exe` suffix) is not modelled. `Helpers.ToolCommand` takes the existence of the tool file as a parameter.
- `Templates`: `.replace('"py311"', …)` on the Ruff and Black blocks is modelled as filling the block's single target-version slot. The templates contain `"py311"` exactly once.
- Helpers.ValidateVersion: the semver pattern is advisory and the function returns its input either way. `LooksLikeSemver` models the pattern and has no effect on the result.
- Engine.CiEstablishes: holds only when no Ruff check sits on the `pip install ruff` line itself (`SplitsRuffCheck`). On an existing line `pip install ruff check`, the install-line patch inserts the Black install in the middle of `ruff check`, and that check is gone afterwards (second row of Findings). `Engine.CiFixedEstablishes` holds without the hypothesis.
- Engine.CiIdempotent: carries the same hypothesis as `Engine.CiEstablishes`, for the same reason. Outside it, a second run appends the whole job again (`Engine.CiSplitCheckReappends`). `Engine.CiFixedIdempotent` holds without the hypothesis.
- Engine.CiAppendsOnly: holds only when the install line is not patched. Patching it inserts text in the middle of the old text.
- Workspace.Store.EnsureCi: applies the corrected merge `Engine.CiMergeFixed`, not `Engine.CiMerge`. On a workflow with a Ruff check on its install line (`pip install ruff check`, `pip install ruff format --check`), the store writes the corrected text, not what `ensure_ci` writes (first row of Findings). Everywhere else the two agree (`Engine.CiMergeFixed`'s contract).
- Workspace.Store.ResolveLayout: applies the corrected conversion `Workspace.Convert`, not `Workspace.ConvertAsWritten`. With an empty directory name, the store keeps the root `main.py` that the program deletes (second row of Findings). For every non-empty name the two agree (`Workspace.Convert`'s contract).
- The older script's pre-commit and requirements merges (`main.py:166-185`, `main.py:253-268`) are the same code as the newer one's. They are modelled once, by `Engine.PrecommitMerge` and `Engine.RequirementsMerge`, and the rows above cite the newer file. Likewise the older `upsert_file` and `ensure_editorconfig` (`main.py:150-163`) are `Workspace.Store.UpsertFile` and `Workspace.Store.EnsureEditorconfig`.

## Findings

| source | as written | input that shows it | evidently intended | confidence | as-written member | corrected member |
|---|---|---|---|---|---|---|
| karasu/main.py:522-523 | `ensure_ci` patches every `pip install ruff` into `pip install ruff` + newline + `pip install black`, whatever follows it on the line | `ruff format --check .\npip install ruff check .\n`: the first run turns the second line into `pip install ruff`, then `pip install black check .`, so `ruff check` is gone and the second run appends the whole job again | keep every Ruff check and install Black: put the Black install in front of `pip install ruff` when a check sits on that line | not executed | Engine.CiSplitCheckReappends | Engine.CiFixedIdempotent |
| karasu/main.py:799-820 | the flat-to-package conversion writes `root / potential_name / "main.py"` and then unlinks `root / "main.py"` | a project in a directory whose name is empty, such as the filesystem root `/`, with a `main.py` and no package: the package `main.py` is the root `main.py`, so it is written and then deleted | move `main.py` without losing it: skip the unlink when the target is the same file | not executed | Workspace.ConvertAsWrittenLosesMain | Workspace.ConvertMoves |
