/**
 * The project directory as a store of files, and the steps of `karasu/main.py`
 * that write to it: each `ensure_*` reads the current file, runs its merge and
 * writes the result back unless the run is a dry run; `initialize_project`
 * sets up the package and its `main.py`; `main` turns a flat layout (a root
 * `main.py` and no package) into a package. Paths are relative to the project
 * root, with `/` between parts; the root itself is the empty path.
 */
module Workspace {
  import opened Text
  import opened Templates
  import Engine
  import Legacy
  import Helpers

  /** `Path(dir) / name`: joining onto the empty path gives the name itself. */
  function PathJoin(dir: string, name: string): string {
    if dir == "" then name else dir + "/" + name
  }

  const EditorconfigPath := ".editorconfig"
  const PrecommitPath := ".pre-commit-config.yaml"
  const PyprojectPath := "pyproject.toml"
  const CiDir := ".github/workflows"
  const CiPath := PathJoin(CiDir, "ci.yml")
  const RequirementsPath := "requirements-dev.txt"
  const RootMain := "main.py"

  /** The content of a file, or `None` when there is no such file. */
  function Read(files: map<string, string>, p: string): Option<string> {
    if p in files then Some(files[p]) else None
  }

  /** What a merge leaves in the store: its text when it reports a change and the run is real. */
  function Applied(files: map<string, string>, p: string, r: Engine.Merge, dry: bool): map<string, string> {
    if r.changed && !dry then files[p := r.text] else files
  }

  /** A package's `main.py` and `__init__.py` are different files, and neither is the root `main.py`. */
  lemma PackagePaths(name: string)
    requires name != ""
    ensures PathJoin(name, "main.py") != PathJoin(name, "__init__.py")
    ensures PathJoin(name, "main.py") != RootMain && PathJoin(name, "__init__.py") != RootMain
  {
    assert PathJoin(name, "main.py")[|name|..] == "/main.py";
    assert PathJoin(name, "__init__.py")[|name|..] == "/__init__.py";
    assert |PathJoin(name, "main.py")| > |RootMain|;
  }

  // ---------------------------------------------------------------- flat layout to package

  /**
   * The conversion branch of `main` as written: touch `<name>/__init__.py`,
   * write the root `main.py` to `<name>/main.py`, then unlink the root `main.py`.
   */
  function ConvertAsWritten(files: map<string, string>, name: string): map<string, string>
    requires RootMain in files
  {
    var init := PathJoin(name, "__init__.py");
    var withInit := if init in files then files else files[init := ""];
    var moved := withInit[PathJoin(name, "main.py") := files[RootMain]];
    moved - {RootMain}
  }

  /**
   * With an empty directory name the package `main.py` is the root `main.py`
   * itself, so the unlink deletes the file just written: the program is gone.
   */
  lemma ConvertAsWrittenLosesMain(files: map<string, string>)
    requires RootMain in files
    ensures PathJoin("", "main.py") == RootMain
    ensures RootMain !in ConvertAsWritten(files, "")
    ensures forall p :: p in ConvertAsWritten(files, "") ==> p == "__init__.py" || p in files
  {
  }

  /** The conversion with the unlink skipped when the move target is the root file itself. */
  function Convert(files: map<string, string>, name: string): (r: map<string, string>)
    requires RootMain in files
    ensures name != "" ==> r == ConvertAsWritten(files, name)
  {
    var init := PathJoin(name, "__init__.py");
    var withInit := if init in files then files else files[init := ""];
    var target := PathJoin(name, "main.py");
    var moved := withInit[target := files[RootMain]];
    if target == RootMain then moved else moved - {RootMain}
  }

  /**
   * After the conversion the package `main.py` holds the program, the root one
   * is gone (unless it is the same file), `__init__.py` exists and keeps any
   * content it had, and every other file is untouched.
   */
  lemma ConvertMoves(files: map<string, string>, name: string)
    requires RootMain in files
    ensures var r := Convert(files, name);
            var target := PathJoin(name, "main.py");
            var init := PathJoin(name, "__init__.py");
            target in r && r[target] == files[RootMain] &&
            (RootMain in r <==> name == "") &&
            init in r && r[init] == (if init in files then files[init] else "") &&
            (forall p :: p != RootMain && p != target && p != init ==>
               (p in r <==> p in files) && (p in r ==> r[p] == files[p]))
  {
    if name != "" {
      PackagePaths(name);
    }
  }

  /** The names the conversion settles on: the directory's name, and its importable form. */
  datatype Layout = Layout(projectName: Option<string>, packageName: Option<string>)

  /**
   * `main`'s choice without `--initialize`: convert when there is a root
   * `main.py` and no package was detected; otherwise keep the detected package.
   */
  function ChooseLayout(hasRootMain: bool, detected: Option<string>, dirName: string): (l: Layout)
    ensures hasRootMain && detected.None? ==>
      l.projectName == Some(Helpers.InferNameFromDirectory(dirName)) &&
      l.packageName == Some(Helpers.PackageName(l.projectName.value)) &&
      (forall i :: 0 <= i < |l.packageName.value| ==> l.packageName.value[i] != '-')
    ensures !(hasRootMain && detected.None?) ==> l == Layout(None, detected)
  {
    if hasRootMain && detected.None? then
      var potential := Helpers.InferNameFromDirectory(dirName);
      Layout(Some(potential), Some(Helpers.PackageName(potential)))
    else Layout(None, detected)
  }

  // ---------------------------------------------------------------- initialize_project

  /** The answers `initialize_project` settles on. */
  datatype Init = Init(name: string, description: string, version: string, package: string)

  /**
   * The values of `initialize_project`: a missing or empty argument is replaced
   * by the stripped answer to its prompt, or by the default when that is empty
   * too (the directory's name, `"CLI tool"`, `"0.1.0"`). The name is then
   * normalised and the package name derived from it.
   */
  function ResolveInit(dirName: string, name: Option<string>, description: Option<string>, version: Option<string>,
                       nameAnswer: string, descriptionAnswer: string, versionAnswer: string): (r: Init)
    ensures Helpers.ValidName(r.name)
    ensures Engine.Truthy(name) ==> r.name == Helpers.ValidateName(name.value)
    ensures !Engine.Truthy(name) && Strip(nameAnswer) != "" ==> r.name == Helpers.ValidateName(Strip(nameAnswer))
    ensures !Engine.Truthy(name) && Strip(nameAnswer) == "" ==>
              r.name == Helpers.ValidateName(Helpers.InferNameFromDirectory(dirName))
    ensures r.package == Helpers.PackageName(r.name)
    ensures forall i :: 0 <= i < |r.package| ==> r.package[i] != '-'
    ensures Engine.Truthy(description) ==> r.description == description.value
    ensures !Engine.Truthy(description) && Strip(descriptionAnswer) != "" ==> r.description == Strip(descriptionAnswer)
    ensures !Engine.Truthy(description) && Strip(descriptionAnswer) == "" ==> r.description == "CLI tool"
    ensures Engine.Truthy(version) ==> r.version == version.value
    ensures !Engine.Truthy(version) && Strip(versionAnswer) != "" ==> r.version == Strip(versionAnswer)
    ensures !Engine.Truthy(version) && Strip(versionAnswer) == "" ==> r.version == "0.1.0"
  {
    var rawName :=
      if Engine.Truthy(name) then name.value
      else if Strip(nameAnswer) != "" then Strip(nameAnswer)
      else Helpers.InferNameFromDirectory(dirName);
    var n := Helpers.ValidateName(rawName);
    var d :=
      if Engine.Truthy(description) then description.value
      else if Strip(descriptionAnswer) != "" then Strip(descriptionAnswer)
      else "CLI tool";
    var v :=
      if Engine.Truthy(version) then version.value
      else if Strip(versionAnswer) != "" then Strip(versionAnswer)
      else "0.1.0";
    Init(n, d, Helpers.ValidateVersion(v), Helpers.PackageName(n))
  }

  /** With no name given and an empty answer, the name comes from the directory. */
  lemma ResolveInitDefaultName(dirName: string, description: Option<string>, version: Option<string>,
                               descriptionAnswer: string, versionAnswer: string)
    ensures ResolveInit(dirName, None, description, version, "", descriptionAnswer, versionAnswer).name
            == Helpers.ValidateName(dirName)
  {
    assert Strip("") == "";
    Helpers.ValidateInferredName(dirName);
  }

  /** Whether `initialize_project` (re)writes the package `main.py`: it is missing, or still holds the placeholder. */
  predicate RewritesMain(cur: Option<string>) {
    cur.None? || Contains(cur.value, "my-tool")
  }

  /**
   * The files after the package set-up: `__init__.py` is touched only when the
   * package directory itself is new, and `main.py` is (re)written from the
   * template when `RewritesMain` says so.
   */
  function InitializedFiles(files: map<string, string>, dirs: set<string>, name: string, template: string): map<string, string> {
    var target := PathJoin(name, "main.py");
    var initPy := PathJoin(name, "__init__.py");
    var withInit := if name !in dirs && initPy !in files then files[initPy := ""] else files;
    if RewritesMain(Read(files, target)) then withInit[target := template] else withInit
  }

  /**
   * The package `main.py` is the filled template exactly when it was missing
   * or held the placeholder, and is untouched otherwise; an `__init__.py`
   * appears only in a new package directory; no other file changes.
   */
  lemma InitializedFilesEffect(files: map<string, string>, dirs: set<string>, name: string, template: string)
    requires name != ""
    ensures var r := InitializedFiles(files, dirs, name, template);
            var target := PathJoin(name, "main.py");
            var initPy := PathJoin(name, "__init__.py");
            target in r &&
            (RewritesMain(Read(files, target)) ==> r[target] == template) &&
            (!RewritesMain(Read(files, target)) ==> r[target] == files[target]) &&
            (initPy in r <==> initPy in files || name !in dirs) &&
            (initPy in files ==> r[initPy] == files[initPy]) &&
            (initPy !in files && name !in dirs ==> r[initPy] == "") &&
            (forall p :: p != target && p != initPy ==> (p in r <==> p in files) && (p in r ==> r[p] == files[p]))
  {
    PackagePaths(name);
  }

  /** Setting up the same package again changes no file. */
  lemma InitializedFilesIdempotent(files: map<string, string>, dirs: set<string>, name: string, template: string)
    requires name != ""
    ensures var r := InitializedFiles(files, dirs, name, template);
            InitializedFiles(r, dirs + {name}, name, template) == r
  {
    var r := InitializedFiles(files, dirs, name, template);
    InitializedFilesEffect(files, dirs, name, template);
    InitializedFilesEffect(r, dirs + {name}, name, template);
  }

  // ---------------------------------------------------------------- the store

  class Store {
    var files: map<string, string>
    var dirs: set<string>

    constructor(files0: map<string, string>, dirs0: set<string>)
      ensures files == files0 && dirs == dirs0
    {
      files := files0;
      dirs := dirs0;
    }

    /** `upsert_file`: an existing file is left alone; a new one is written unless the run is dry. */
    method UpsertFile(dir: string, name: string, content: string, dry: bool) returns (created: bool)
      modifies this
      ensures created <==> PathJoin(dir, name) !in old(files)
      ensures files == if created && !dry then old(files)[PathJoin(dir, name) := content] else old(files)
      ensures dirs == if created && !dry && dir != "" then old(dirs) + {dir} else old(dirs)
    {
      var p := PathJoin(dir, name);
      if p in files {
        return false;
      }
      if !dry {
        if dir != "" {
          dirs := dirs + {dir};
        }
        files := files[p := content];
      }
      return true;
    }

    /** `ensure_editorconfig`: written only when there is none. */
    method EnsureEditorconfig(dry: bool) returns (changed: bool)
      modifies this
      ensures changed <==> EditorconfigPath !in old(files)
      ensures files == if changed && !dry then old(files)[EditorconfigPath := Editorconfig] else old(files)
      ensures dirs == old(dirs)
    {
      if EditorconfigPath in files {
        return false;
      }
      changed := UpsertFile("", EditorconfigPath, Editorconfig, dry);
    }

    /** `ensure_precommit`: the merge's flag, and its text written unless the run is dry. */
    method EnsurePrecommit(ruffOnly: bool, dry: bool) returns (changed: bool)
      modifies this
      ensures var r := Engine.PrecommitMerge(Read(old(files), PrecommitPath), ruffOnly);
              changed == r.changed && files == Applied(old(files), PrecommitPath, r, dry)
      ensures dirs == old(dirs)
    {
      if PrecommitPath in files {
        var r := Engine.PrecommitMerge(Some(files[PrecommitPath]), ruffOnly);
        if r.changed && !dry {
          files := files[PrecommitPath := r.text];
        }
        return r.changed;
      }
      changed := UpsertFile("", PrecommitPath, Engine.PrecommitMerge(None, ruffOnly).text, dry);
    }

    /**
     * `ensure_pyproject`, step by step in its own order: the project tables
     * (with the line scan for the scripts table), the Ruff table, the Black table.
     */
    method EnsurePyproject(ruffOnly: bool, pyver: string, info: Engine.ProjectInfo, dry: bool) returns (changed: bool)
      modifies this
      ensures var r := Engine.PyprojectMerge(Read(old(files), PyprojectPath), ruffOnly, pyver, info);
              changed == r.changed && files == Applied(old(files), PyprojectPath, r, dry)
      ensures dirs == old(dirs)
    {
      if PyprojectPath !in files {
        changed := UpsertFile("", PyprojectPath, Engine.PyprojectMerge(None, ruffOnly, pyver, info).text, dry);
        return;
      }
      var txt;
      txt, changed := MergePyproject(files[PyprojectPath], ruffOnly, pyver, info);
      if changed && !dry {
        files := files[PyprojectPath := txt];
      }
    }

    /** The merge of an existing `pyproject.toml`: the project tables, then the Ruff and Black tables. */
    static method MergePyproject(cur: string, ruffOnly: bool, pyver: string, info: Engine.ProjectInfo)
      returns (txt: string, changed: bool)
      ensures Engine.Merge(txt, changed) == Engine.PyprojectMerge(Some(cur), ruffOnly, pyver, info)
    {
      var projectChanged;
      txt, projectChanged := ProjectTables(cur, info, pyver);
      var tv := Engine.TargetVersion(pyver);
      var ruff := Engine.RuffStep(txt, tv);
      var black := Engine.BlackStep(ruff.text, ruffOnly, tv);
      txt := black.text;
      changed := projectChanged || ruff.changed || black.changed;
    }

    /** The `[project]` part of `ensure_pyproject`, with the line scan for the scripts table. */
    static method ProjectTables(txt: string, info: Engine.ProjectInfo, pyver: string) returns (r: string, changed: bool)
      ensures Engine.Merge(r, changed) == Engine.ProjectStep(txt, info, pyver)
    {
      r := txt;
      changed := false;
      if Engine.Truthy(info.name) && !Contains(r, Engine.ProjectMarker) {
        var block := Engine.ProjectBlock(info.name.value, info, pyver);
        if Contains(r, Engine.BuildMarker) {
          r := Replace(r, Engine.BuildMarker, Engine.BuildMarker + ("\n\n" + block), true);
        } else {
          r := block + r;
        }
        changed := true;
      } else if Engine.Truthy(info.name) && !Contains(r, Engine.ScriptsMarker) {
        if Contains(r, Engine.ProjectMarker) {
          var lines := Lines(r);
          var k := Engine.FindScriptsInsertIndex(lines);
          lines := lines[..k] + [Engine.ScriptsBlock(info.name.value, Engine.EntryPoint(info.package))] + lines[k..];
          r := Join(lines);
          changed := true;
        }
      }
    }

    /** `ensure_ci`: the workflow lives under `.github/workflows`, created with the file. */
    method EnsureCi(ruffOnly: bool, pyver: string, dry: bool) returns (changed: bool)
      modifies this
      ensures var r := Engine.CiMergeFixed(Read(old(files), CiPath), ruffOnly, pyver);
              changed == r.changed && files == Applied(old(files), CiPath, r, dry)
      ensures dirs == if CiPath !in old(files) && !dry then old(dirs) + {CiDir} else old(dirs)
    {
      if CiPath in files {
        var r := Engine.CiMergeFixed(Some(files[CiPath]), ruffOnly, pyver);
        if r.changed && !dry {
          files := files[CiPath := r.text];
        }
        return r.changed;
      }
      changed := UpsertFile(CiDir, "ci.yml", Engine.CiMergeFixed(None, ruffOnly, pyver).text, dry);
    }

    /** `ensure_requirements_dev`: with nothing missing the file is left alone; a dry run reports what a real one would. */
    method EnsureRequirements(ruffOnly: bool, dry: bool) returns (changed: bool)
      modifies this
      ensures var r := Engine.RequirementsMerge(Read(old(files), RequirementsPath), ruffOnly);
              changed == r.changed && files == Applied(old(files), RequirementsPath, r, dry)
      ensures dirs == old(dirs)
    {
      if RequirementsPath in files {
        var txt := files[RequirementsPath];
        var missing := Engine.Missing(Engine.Want(ruffOnly), txt);
        if missing == [] {
          return false;
        }
        if !dry {
          files := files[RequirementsPath := Engine.AppendEntries(Engine.WithHeader(txt), missing)];
        }
        return true;
      }
      changed := UpsertFile("", RequirementsPath, Engine.RequirementsMerge(None, ruffOnly).text, dry);
    }

    /** `ensure_pyproject` of the older script. */
    method LegacyEnsurePyproject(ruffOnly: bool, pyver: string, dry: bool) returns (changed: bool)
      modifies this
      ensures var r := Legacy.PyprojectMerge(Read(old(files), PyprojectPath), ruffOnly, pyver);
              changed == r.changed && files == Applied(old(files), PyprojectPath, r, dry)
      ensures dirs == old(dirs)
    {
      if PyprojectPath in files {
        var r := Legacy.PyprojectMerge(Some(files[PyprojectPath]), ruffOnly, pyver);
        if r.changed && !dry {
          files := files[PyprojectPath := r.text];
        }
        return r.changed;
      }
      changed := UpsertFile("", PyprojectPath, Legacy.PyprojectMerge(None, ruffOnly, pyver).text, dry);
    }

    /** `ensure_ci` of the older script. */
    method LegacyEnsureCi(ruffOnly: bool, pyver: string, dry: bool) returns (changed: bool)
      modifies this
      ensures var r := Legacy.CiMerge(Read(old(files), CiPath), ruffOnly, pyver);
              changed == r.changed && files == Applied(old(files), CiPath, r, dry)
      ensures dirs == if CiPath !in old(files) && !dry then old(dirs) + {CiDir} else old(dirs)
    {
      if CiPath in files {
        var r := Legacy.CiMerge(Some(files[CiPath]), ruffOnly, pyver);
        if r.changed && !dry {
          files := files[CiPath := r.text];
        }
        return r.changed;
      }
      changed := UpsertFile(CiDir, "ci.yml", Legacy.CiMerge(None, ruffOnly, pyver).text, dry);
    }

    /**
     * The package set-up of `initialize_project`: a missing package directory
     * is created with an empty `__init__.py`; the package `main.py` is written
     * from the template when it is missing or still holds the placeholder name.
     * A dry run changes nothing.
     */
    method InitializePackage(init: Init, dry: bool)
      requires init.name != ""
      modifies this
      ensures dry ==> files == old(files) && dirs == old(dirs)
      ensures !dry ==> files == InitializedFiles(old(files), old(dirs), init.name, MainPyTemplate(init.name, init.description))
      ensures !dry ==> dirs == old(dirs) + {init.name}
    {
      if !dry {
        SetUpPackage(init.name, MainPyTemplate(init.name, init.description));
      }
    }

    /** The writes of the package set-up, with the filled template as `template`. */
    method SetUpPackage(packageDir: string, template: string)
      requires packageDir != ""
      modifies this
      ensures files == InitializedFiles(old(files), old(dirs), packageDir, template)
      ensures dirs == old(dirs) + {packageDir}
    {
      var mainPy := PathJoin(packageDir, "main.py");
      var initFile := PathJoin(packageDir, "__init__.py");
      PackagePaths(packageDir);
      ghost var before := files;
      if packageDir !in dirs {
        dirs := dirs + {packageDir};
        if initFile !in files {
          files := files[initFile := ""];
        }
      }
      assert Read(files, mainPy) == Read(before, mainPy);
      var created := false;
      if mainPy !in files {
        files := files[mainPy := template];
        created := true;
      }
      if mainPy in files && (created || Contains(files[mainPy], "my-tool")) {
        files := files[mainPy := template];
      }
      dirs := dirs + {packageDir};
    }

    /**
     * The layout branch of `main` without `--initialize`: a root `main.py` with
     * no package detected is moved into a package named after the directory.
     */
    method ResolveLayout(dirName: string, detected: Option<string>, dry: bool) returns (layout: Layout)
      modifies this
      ensures layout == ChooseLayout(RootMain in old(files), detected, dirName)
      ensures var name := Helpers.InferNameFromDirectory(dirName);
              if RootMain in old(files) && detected.None? && !dry then
                files == Convert(old(files), name) &&
                dirs == (if name != "" then old(dirs) + {name} else old(dirs))
              else files == old(files) && dirs == old(dirs)
    {
      layout := ChooseLayout(RootMain in files, detected, dirName);
      if RootMain in files && detected.None? && !dry {
        var potential := Helpers.InferNameFromDirectory(dirName);
        if potential != "" {
          dirs := dirs + {potential};
        }
        var initFile := PathJoin(potential, "__init__.py");
        var program := files[RootMain];
        if initFile !in files {
          files := files[initFile := ""];
        }
        var packageMain := PathJoin(potential, "main.py");
        files := files[packageMain := program];
        if packageMain != RootMain {
          files := files - {RootMain};
        }
      }
    }
  }
}
