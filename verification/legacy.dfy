/**
 * The older single-file variant of the script (`main.py`). Its pre-commit and
 * requirements merges are the same code as the newer engine's and are not
 * repeated here. What differs is modelled on its own: `ensure_pyproject`
 * knows nothing of project tables, and `ensure_ci` never edits the
 * `pip install` line. Lemmas compare each with the newer engine.
 */
module Legacy {
  import opened Text
  import opened Templates
  import Engine

  // ================================================================ pyproject.toml

  /** `ensure_pyproject` of the older script: the Ruff table, then the Black table, nothing else. */
  function PyprojectMerge(cur: Option<string>, ruffOnly: bool, pyver: string): Engine.Merge {
    var tv := Engine.TargetVersion(pyver);
    match cur
    case None =>
      Engine.Merge(MinimalBuild + "\n\n" + RuffBlock(tv) + (if ruffOnly then "" else "\n\n" + BlackBlock(tv)), true)
    case Some(t) =>
      var b := Engine.RuffStep(t, tv);
      var c := Engine.BlackStep(b.text, ruffOnly, tv);
      Engine.Merge(c.text, b.changed || c.changed)
  }

  /** The older merge is the newer one run without project metadata. */
  lemma PyprojectMatches(cur: Option<string>, ruffOnly: bool, pyver: string)
    ensures PyprojectMerge(cur, ruffOnly, pyver) == Engine.PyprojectMerge(cur, ruffOnly, pyver, Engine.NoProject)
  {
    if cur.None? {
      var tv := Engine.TargetVersion(pyver);
      assert MinimalBuild + "\n\n" + "" == MinimalBuild + "\n\n";
    } else {
      assert Engine.ProjectStep(cur.value, Engine.NoProject, pyver) == Engine.Merge(cur.value, false);
    }
  }

  /** After one run the Ruff table is there, and the Black table unless Ruff-only. */
  lemma PyprojectEstablishes(cur: Option<string>, ruffOnly: bool, pyver: string)
    ensures var r := PyprojectMerge(cur, ruffOnly, pyver).text;
            Contains(r, Engine.RuffTableMarker) && (ruffOnly || Contains(r, Engine.BlackTableMarker))
  {
    PyprojectMatches(cur, ruffOnly, pyver);
    Engine.PyprojectEstablishes(cur, ruffOnly, pyver, Engine.NoProject);
  }

  /** A second run with the same flags reports no change and leaves the text as it is. */
  lemma PyprojectIdempotent(cur: Option<string>, ruffOnly: bool, pyver: string)
    ensures var r := PyprojectMerge(cur, ruffOnly, pyver);
            PyprojectMerge(Some(r.text), ruffOnly, pyver) == Engine.Merge(r.text, false)
  {
    var r := PyprojectMerge(cur, ruffOnly, pyver);
    PyprojectMatches(cur, ruffOnly, pyver);
    PyprojectMatches(Some(r.text), ruffOnly, pyver);
    Engine.PyprojectIdempotent(cur, ruffOnly, pyver, Engine.NoProject);
  }

  /** The blocks are only ever appended: the stripped old text stays in front. */
  lemma PyprojectAppendsOnly(t: string, ruffOnly: bool, pyver: string)
    ensures StartsWith(PyprojectMerge(Some(t), ruffOnly, pyver).text, RStrip(t))
  {
    var tv := Engine.TargetVersion(pyver);
    var b := Engine.RuffStep(t, tv).text;
    var c := Engine.BlackStep(b, ruffOnly, tv).text;
    TwoStepsKeepStripped(t, RuffBlock(tv), b, BlackBlock(tv), c);
  }

  /** Two conditional appends in a row keep the stripped text in front. */
  lemma TwoStepsKeepStripped(t: string, block1: string, b: string, block2: string, c: string)
    requires b == t || b == Engine.AppendBlock(t, block1)
    requires c == b || c == Engine.AppendBlock(b, block2)
    ensures StartsWith(c, RStrip(t))
  {
    StepKeepsStripped(t, block1, b);
    StepKeepsStripped(b, block2, c);
    StartsWithTrans(c, RStrip(b), RStrip(t));
  }

  /** Leaving the text or appending one block keeps the stripped text in front, stripped or not. */
  lemma StepKeepsStripped(t: string, block: string, r: string)
    requires r == t || r == Engine.AppendBlock(t, block)
    ensures StartsWith(r, RStrip(t)) && StartsWith(RStrip(r), RStrip(t))
  {
    if r != t {
      var sep := if !EndsWith(t, "\n") then "\n\n" else "\n";
      StartsWithAppend(RStrip(t), sep + block);
      assert RStrip(t) + (sep + block) == r;
    }
    if RStrip(t) != [] {
      RStripKeepsAt(r, RStrip(t), 0);
    }
  }

  /** On a new file, or one without a Ruff table, the target version is `py` and the version's digits. */
  lemma PyprojectTargetVersion(cur: Option<string>, ruffOnly: bool, pyver: string)
    requires cur.None? || !Contains(cur.value, Engine.RuffTableMarker)
    ensures Contains(PyprojectMerge(cur, ruffOnly, pyver).text, RuffTarget("py" + Engine.Undotted(pyver)))
  {
    PyprojectMatches(cur, ruffOnly, pyver);
    Engine.PyprojectTargetVersion(cur, ruffOnly, pyver, Engine.NoProject);
  }

  /** With `ruff_only`, the Black table is never written: only the Ruff step acts. */
  lemma PyprojectRuffOnly(cur: Option<string>, pyver: string)
    ensures var tv := Engine.TargetVersion(pyver);
            var r := PyprojectMerge(cur, true, pyver).text;
            match cur
            case None => r == MinimalBuild + "\n\n" + RuffBlock(tv)
            case Some(t) => r == t || r == Engine.AppendBlock(t, RuffBlock(tv))
  {
    if cur.None? {
      var tv := Engine.TargetVersion(pyver);
      assert MinimalBuild + "\n\n" + RuffBlock(tv) + "" == MinimalBuild + "\n\n" + RuffBlock(tv);
    }
  }

  // ================================================================ ci.yml

  /** `ensure_ci` of the older script: append the workflow, or the Black check step alone. */
  function CiMerge(cur: Option<string>, ruffOnly: bool, pyver: string): Engine.Merge {
    var blackDep := if ruffOnly then "" else BlackDepStep;
    var blackStep := if ruffOnly then "" else BlackCheckStep;
    match cur
    case None => Engine.Merge(CiTemplate(pyver, blackDep, blackStep), true)
    case Some(t) =>
      if !Contains(t, Engine.FormatCheck) || !Contains(t, Engine.LintCheck) then
        Engine.Merge(RStrip(t) + "\n\n" + CiTemplate(pyver, blackDep, blackStep), true)
      else if !ruffOnly && !Contains(t, Engine.BlackCheck) then
        Engine.Merge(Engine.AddBlackStep(t), true)
      else Engine.Merge(t, false)
  }

  /** The older script is satisfied by the three checks; it does not look at the install line. */
  predicate CiComplete(t: string, ruffOnly: bool) {
    Contains(t, Engine.FormatCheck) && Contains(t, Engine.LintCheck) && (ruffOnly || Contains(t, Engine.BlackCheck))
  }

  lemma CiChangedIffIncomplete(t: string, ruffOnly: bool, pyver: string)
    ensures CiMerge(Some(t), ruffOnly, pyver).changed <==> !CiComplete(t, ruffOnly)
    ensures CiComplete(t, ruffOnly) ==> CiMerge(Some(t), ruffOnly, pyver).text == t
  {
  }

  /** One run makes any workflow complete; unlike the newer script, nothing about the text is assumed. */
  lemma CiEstablishes(cur: Option<string>, ruffOnly: bool, pyver: string)
    ensures CiComplete(CiMerge(cur, ruffOnly, pyver).text, ruffOnly)
  {
    match cur
    case None =>
      Engine.FreshCiComplete(ruffOnly, pyver);
    case Some(t) =>
      if !Contains(t, Engine.FormatCheck) || !Contains(t, Engine.LintCheck) {
        Engine.AppendedCiComplete(t, ruffOnly, pyver);
      } else if !ruffOnly && !Contains(t, Engine.BlackCheck) {
        Engine.AddBlackStepKeeps(t, Engine.FormatCheck);
        Engine.AddBlackStepKeeps(t, Engine.LintCheck);
        Engine.AddBlackStepAdds(t);
      }
  }

  /** A second run reports no change and leaves the text as it is. */
  lemma CiIdempotent(cur: Option<string>, ruffOnly: bool, pyver: string)
    ensures var r := CiMerge(cur, ruffOnly, pyver);
            CiMerge(Some(r.text), ruffOnly, pyver) == Engine.Merge(r.text, false)
  {
    var r := CiMerge(cur, ruffOnly, pyver);
    CiEstablishes(cur, ruffOnly, pyver);
    CiChangedIffIncomplete(r.text, ruffOnly, pyver);
  }

  /** The install line is never edited: the stripped old text always stays in front. */
  lemma CiAppendsOnly(t: string, ruffOnly: bool, pyver: string)
    ensures StartsWith(CiMerge(Some(t), ruffOnly, pyver).text, RStrip(t))
  {
    if !Contains(t, Engine.FormatCheck) || !Contains(t, Engine.LintCheck) {
      var blackDep := if ruffOnly then "" else BlackDepStep;
      var blackStep := if ruffOnly then "" else BlackCheckStep;
      Engine.StartsWithSeparated(RStrip(t), CiTemplate(pyver, blackDep, blackStep));
    } else if !ruffOnly && !Contains(t, Engine.BlackCheck) {
      Engine.AddBlackStepAdds(t);
      StartsWithTrans(Engine.AddBlackStep(t), t, RStrip(t));
    }
  }

  /** Where Black is already installed, or Ruff is not, the two scripts agree. */
  lemma CiMatches(cur: Option<string>, ruffOnly: bool, pyver: string)
    requires cur.None? || ruffOnly || Contains(cur.value, Engine.BlackInstall) || !Contains(cur.value, Engine.RuffInstall)
    ensures CiMerge(cur, ruffOnly, pyver) == Engine.CiMerge(cur, ruffOnly, pyver)
  {
  }

  /**
   * Where they disagree: a workflow with all three checks whose install line
   * lacks Black is left alone by the older script and patched by the newer.
   */
  lemma CiDiffersOnInstall(t: string, pyver: string)
    requires Contains(t, Engine.FormatCheck) && Contains(t, Engine.LintCheck) && Contains(t, Engine.BlackCheck)
    requires Contains(t, Engine.RuffInstall) && !Contains(t, Engine.BlackInstall)
    ensures CiMerge(Some(t), false, pyver) == Engine.Merge(t, false)
    ensures Engine.CiMerge(Some(t), false, pyver).changed
    ensures Contains(Engine.CiMerge(Some(t), false, pyver).text, Engine.BlackInstall)
  {
    var r := Engine.CiMerge(Some(t), false, pyver).text;
    ReplaceIntroduces(t, Engine.RuffInstall, Engine.RuffInstall + BlackDepStep, true);
    BlackStepsMarkers();
    ContainsRight(Engine.RuffInstall, BlackDepStep, Engine.BlackInstall);
    ContainsTrans(r, Engine.RuffInstall + BlackDepStep, Engine.BlackInstall);
  }

  /** With `ruff_only`, no Black step and no Black install line is written. */
  lemma CiRuffOnly(cur: Option<string>, pyver: string)
    ensures var r := CiMerge(cur, true, pyver).text;
            match cur
            case None => r == CiTemplate(pyver, "", "")
            case Some(t) => r == t || r == RStrip(t) + "\n\n" + CiTemplate(pyver, "", "")
  {
  }
}
