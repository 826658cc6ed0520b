/**
 * The template store: the fixed text blocks that the merge engine writes.
 * Both variants of the script carry the same blocks. Each block is written
 * as a concatenation of its lines, with the marker that later runs look for
 * kept as a piece of its own, so that "the block contains its marker" is a
 * short proof. Slots that `initialize_project`, `ensure_pyproject` and
 * `ensure_ci` fill with `str.format` or `str.replace` are function parameters.
 */
module Templates {
  import opened Text

  const RuffRev := "v0.6.9"
  const BlackRev := "24.10.0"

  const Editorconfig :=
    "root = true\n" +
    "\n" +
    "[*]\n" +
    "end_of_line = lf\n" +
    "insert_final_newline = true\n" +
    "indent_style = space\n" +
    "indent_size = 4\n" +
    "\n" +
    "[*.{py,pyi}]\n" +
    "trim_trailing_whitespace = true\n" +
    "\n" +
    "[*.md]\n" +
    "trim_trailing_whitespace = false\n"

  /** The first lines of the Ruff hook block, up to and including its marker. */
  const PrecommitRuffHead := "repos:\n" + "  - repo: https://github.com/astral-sh/" + "ruff-pre-commit"

  const PrecommitRuff :=
    PrecommitRuffHead + "\n" +
    "    rev: " + RuffRev + "\n" +
    "    hooks:\n" +
    "      - id: ruff\n" +
    "        args: [--fix]\n" +
    "      - id: ruff-format\n"

  const PrecommitBlack :=
    "  - repo: https://github.com/" + "psf/black" + "\n" +
    "    rev: " + BlackRev + "\n" +
    "    hooks:\n" +
    "      - id: black\n"

  /** The Ruff configuration block with `tv` where `ensure_pyproject` replaces `"py311"`. */
  function RuffBlock(tv: string): string {
    RuffBlockHead + RuffTarget(tv) + RuffBlockTail
  }

  function RuffTarget(tv: string): string {
    "target-version = \"" + tv + "\""
  }

  const RuffBlockHead := "[tool.ruff]" + "\n" + "line-length = 100\n"

  const RuffBlockTail :=
    "\n" +
    "exclude = [\n" +
    "    \".git\",\n" +
    "    \"__pycache__\",\n" +
    "    \"build\",\n" +
    "    \"dist\",\n" +
    "    \".eggs\",\n" +
    "    \"*.egg-info\",\n" +
    "    \".venv\",\n" +
    "    \"venv\",\n" +
    "    \".mypy_cache\",\n" +
    "    \".pytest_cache\",\n" +
    "    \"htmlcov\",\n" +
    "]\n" +
    "\n" +
    "[tool.ruff.lint]\n" +
    "select = [\"E\", \"F\", \"I\", \"N\", \"W\", \"UP\"]\n" +
    "ignore = [\"E203\", \"E501\"]\n" +
    "\n" +
    "[tool.ruff.lint.isort]\n" +
    "combine-as-imports = true\n" +
    "\n" +
    "[tool.ruff.format]\n" +
    "quote-style = \"double\"\n"

  /** The Black configuration block with `tv` where `ensure_pyproject` replaces `"py311"`. */
  function BlackBlock(tv: string): string {
    BlackBlockHead + BlackTarget(tv) + BlackBlockTail
  }

  function BlackTarget(tv: string): string {
    "target-version = [\"" + tv + "\"]"
  }

  const BlackBlockHead := "[tool.black]" + "\n" + "line-length = 100\n"

  const BlackBlockTail :=
    "\n" +
    "extend-exclude = '''\n" +
    "/(\n" +
    "  \\.eggs\n" +
    "  | \\.git\n" +
    "  | \\.hg\n" +
    "  | \\.mypy_cache\n" +
    "  | \\.tox\n" +
    "  | \\.venv\n" +
    "  | build\n" +
    "  | dist\n" +
    ")/\n" +
    "'''\n"

  const MinimalBuild :=
    "[build-system]" + "\n" +
    "requires = [\"setuptools>=45\", \"wheel\"]\n" +
    "build-backend = \"setuptools.build_meta\"\n"

  /** The CI workflow, with the `{PYVER}`, `{BLACK_DEP}` and `{BLACK_STEP}` slots as parameters. */
  function CiTemplate(pyver: string, blackDep: string, blackStep: string): string {
    CiHead + pyver + CiInstall + blackDep + CiChecks + blackStep + "\n"
  }

  const CiHead :=
    "name: CI\n" +
    "\n" +
    "on:\n" +
    "  push:\n" +
    "    branches: [ main, master, develop ]\n" +
    "  pull_request:\n" +
    "    branches: [ main, master, develop ]\n" +
    "\n" +
    "jobs:\n" +
    "  lint:\n" +
    "    runs-on: ubuntu-latest\n" +
    "    steps:\n" +
    "    - uses: actions/checkout@v4\n" +
    "\n" +
    "    - name: Set up Python\n" +
    "      uses: actions/setup-python@v5\n" +
    "      with:\n" +
    "        python-version: '"

  /** From the end of the Python-version line to the Ruff install command. */
  const CiInstall := CiInstallHead + "pip install ruff"

  const CiInstallHead :=
    "'\n" +
    "\n" +
    "    - name: Install dev deps\n" +
    "      run: |\n" +
    "        python -m pip install --upgrade pip\n" +
    "        "

  /** The two Ruff check steps. */
  const CiChecks := CiFormatHead + "ruff format --check" + CiLintHead + "ruff check" + " .\n\n"

  const CiFormatHead :=
    "\n" +
    "\n" +
    "    - name: Format check with Ruff\n" +
    "      run: |\n" +
    "        "

  const CiLintHead :=
    " .\n" +
    "\n" +
    "    - name: Lint with Ruff\n" +
    "      run: |\n" +
    "        "

  const BlackDepStep := "\n        " + "pip install black"

  const BlackCheckStep := BlackCheckHead + "black --check" + " .\n"

  const BlackCheckHead :=
    "    - name: Format " + "check with Black " + "(backup)\n" +
    "      run: |\n" +
    "        "

  const ReqDevHeader := ReqDevTitle + "\n"

  const ReqDevTitle := "# Development dependencies"

  /** The package entry file, with the `{name}` and `{description}` slots as parameters. */
  function MainPyTemplate(name: string, description: string): string {
    MainPyHead + description + MainPyUsage + name + MainPyBody(description)
  }

  const MainPyHead := "#!/usr/bin/env python3\n" + "\"\"\"\n"

  const MainPyUsage := "\n" + "\n" + "Usage:\n" + "  "

  function MainPyBody(description: string): string {
    " [options]\n" +
    "\n" +
    "\"\"\"\n" +
    "\n" +
    "from __future__ import annotations\n" +
    "\n" +
    "import argparse\n" +
    "import sys\n" +
    "\n" +
    "\n" +
    "def main() -> int:\n" +
    "    \"\"\"Main entry point.\"\"\"\n" +
    "    ap = argparse.ArgumentParser(description=\"" + description + "\")\n" +
    "    # Add your arguments here\n" +
    "\n" +
    "    args = ap.parse_args()\n" +
    "\n" +
    "    # Your code here\n" +
    "\n" +
    "    return 0\n" +
    "\n" +
    "\n" +
    "if __name__ == \"__main__\":\n" +
    "    sys.exit(main())\n"
  }

  // ---------------------------------------------------------------- markers

  lemma PrecommitRuffMarker()
    ensures Contains(PrecommitRuff, "ruff-pre-commit")
    ensures StartsWith(PrecommitRuff, PrecommitRuffHead)
  {
    ContainsMiddle("repos:\n" + "  - repo: https://github.com/astral-sh/", "ruff-pre-commit", []);
    assert PrecommitRuffHead + [] == PrecommitRuffHead;
    ContainsLeft(PrecommitRuffHead, PrecommitRuff[|PrecommitRuffHead|..], "ruff-pre-commit");
    assert PrecommitRuff == PrecommitRuffHead + PrecommitRuff[|PrecommitRuffHead|..];
  }

  lemma PrecommitBlackMarker()
    ensures Contains(PrecommitBlack, "psf/black")
  {
    var tail := "\n" + "    rev: " + BlackRev + "\n" + "    hooks:\n" + "      - id: black\n";
    ContainsMiddle("  - repo: https://github.com/", "psf/black", tail);
    assert PrecommitBlack == "  - repo: https://github.com/" + "psf/black" + tail;
  }

  lemma RuffBlockMarker(tv: string)
    ensures StartsWith(RuffBlock(tv), "[tool.ruff]")
    ensures Contains(RuffBlock(tv), "[tool.ruff]")
    ensures Contains(RuffBlock(tv), RuffTarget(tv))
  {
    assert RuffBlock(tv)[..11] == "[tool.ruff]";
    assert OccursAt(RuffBlock(tv), "[tool.ruff]", 0);
    ContainsMiddle(RuffBlockHead, RuffTarget(tv), RuffBlockTail);
  }

  lemma BlackBlockMarker(tv: string)
    ensures StartsWith(BlackBlock(tv), "[tool.black]")
    ensures Contains(BlackBlock(tv), "[tool.black]")
    ensures Contains(BlackBlock(tv), BlackTarget(tv))
  {
    assert BlackBlock(tv)[..12] == "[tool.black]";
    assert OccursAt(BlackBlock(tv), "[tool.black]", 0);
    ContainsMiddle(BlackBlockHead, BlackTarget(tv), BlackBlockTail);
  }

  /** Whatever fills its slots, the CI workflow carries both Ruff checks and the Ruff install line. */
  lemma CiTemplateMarkers(pyver: string, blackDep: string, blackStep: string)
    ensures Contains(CiTemplate(pyver, blackDep, blackStep), "ruff format --check")
    ensures Contains(CiTemplate(pyver, blackDep, blackStep), "ruff check")
    ensures Contains(CiTemplate(pyver, blackDep, blackStep), "pip install ruff")
  {
    CiChecksMarkers();
    ContainsEnd(CiInstallHead, "pip install ruff");
    var a := CiHead + pyver + CiInstall + blackDep;
    ContainsRight(a, CiChecks, "ruff format --check");
    ContainsLeft(a + CiChecks, blackStep, "ruff format --check");
    ContainsLeft(a + CiChecks + blackStep, "\n", "ruff format --check");
    ContainsRight(a, CiChecks, "ruff check");
    ContainsLeft(a + CiChecks, blackStep, "ruff check");
    ContainsLeft(a + CiChecks + blackStep, "\n", "ruff check");
    ContainsRight(CiHead + pyver, CiInstall, "pip install ruff");
    ContainsLeft(CiHead + pyver + CiInstall, blackDep, "pip install ruff");
    ContainsLeft(a, CiChecks, "pip install ruff");
    ContainsLeft(a + CiChecks, blackStep, "pip install ruff");
    ContainsLeft(a + CiChecks + blackStep, "\n", "pip install ruff");
  }

  lemma CiChecksMarkers()
    ensures Contains(CiChecks, "ruff format --check")
    ensures Contains(CiChecks, "ruff check")
  {
    var m1 := "ruff format --check";
    var m2 := "ruff check";
    ContainsEnd(CiFormatHead, m1);
    ContainsLeft(CiFormatHead + m1, CiLintHead, m1);
    ContainsLeft(CiFormatHead + m1 + CiLintHead, m2, m1);
    ContainsLeft(CiFormatHead + m1 + CiLintHead + m2, " .\n\n", m1);
    ContainsEnd(CiFormatHead + m1 + CiLintHead, m2);
    ContainsLeft(CiFormatHead + m1 + CiLintHead + m2, " .\n\n", m2);
  }

  lemma BlackStepsMarkers()
    ensures Contains(BlackDepStep, "pip install black")
    ensures Contains(BlackCheckStep, "black --check")
  {
    ContainsEnd("\n        ", "pip install black");
    ContainsMiddle(BlackCheckHead, "black --check", " .\n");
  }

  /** The entry file always names the tool and carries its description. */
  lemma MainPyTemplateFilled(name: string, description: string)
    ensures Contains(MainPyTemplate(name, description), name)
    ensures Contains(MainPyTemplate(name, description), description)
  {
    var body := MainPyBody(description);
    ContainsEnd(MainPyHead, description);
    ContainsLeft(MainPyHead + description, MainPyUsage, description);
    ContainsLeft(MainPyHead + description + MainPyUsage, name, description);
    ContainsLeft(MainPyHead + description + MainPyUsage + name, body, description);
    ContainsMiddle(MainPyHead + description + MainPyUsage, name, body);
  }

  /** With its Black slots filled, the CI workflow carries the Black check and the Black install line. */
  lemma CiTemplateBlackMarkers(pyver: string)
    ensures Contains(CiTemplate(pyver, BlackDepStep, BlackCheckStep), "black --check")
    ensures Contains(CiTemplate(pyver, BlackDepStep, BlackCheckStep), "pip install black")
  {
    BlackStepsMarkers();
    var a := CiHead + pyver + CiInstall;
    ContainsRight(a, BlackDepStep, "pip install black");
    ContainsLeft(a + BlackDepStep, CiChecks, "pip install black");
    ContainsLeft(a + BlackDepStep + CiChecks, BlackCheckStep, "pip install black");
    ContainsLeft(a + BlackDepStep + CiChecks + BlackCheckStep, "\n", "pip install black");
    ContainsRight(a + BlackDepStep + CiChecks, BlackCheckStep, "black --check");
    ContainsLeft(a + BlackDepStep + CiChecks + BlackCheckStep, "\n", "black --check");
  }

  /** The Black check step has no lower-case `f`, the last letter of `pip install ruff`. */
  lemma BlackCheckStepHasNoF()
    ensures 'f' !in BlackCheckStep
  {
  }
}
