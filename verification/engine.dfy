/**
 * The merge engine of `karasu/main.py`. Each artifact has a pure merge
 * function from the current file content (`None` when the file does not
 * exist) and the run's flags to the new content and the `changed` flag the
 * source returns. Next to each merge sits a predicate saying when the
 * artifact is complete, with the lemmas that tie the two together: the merge
 * reports a change exactly when the artifact is not complete, one run makes
 * it complete, so a second run changes nothing.
 */
module Engine {
  import opened Text
  import opened Templates

  /** The text a merge leaves and whether it reports a change. */
  datatype Merge = Merge(text: string, changed: bool)

  /** Python truthiness of an optional string: present and non-empty. */
  predicate Truthy(o: Option<string>) {
    o.Some? && o.value != ""
  }

  /** Python's `o or default` on an optional string. */
  function OrElse(o: Option<string>, default: string): string {
    if Truthy(o) then o.value else default
  }

  /**
   * Appends `block` after the stripped text, separated by a blank line when the
   * text did not end in a newline and by one newline when it did.
   */
  function AppendBlock(t: string, block: string): string {
    RStrip(t) + (if !EndsWith(t, "\n") then "\n\n" else "\n") + block
  }

  lemma AppendBlockKeeps(t: string, block: string, m: string)
    requires Contains(t, m) && |m| > 0 && !IsSpace(m[|m| - 1])
    ensures Contains(AppendBlock(t, block), m)
  {
    RStripKeeps(t, m);
    var sep := if !EndsWith(t, "\n") then "\n\n" else "\n";
    ContainsLeft(RStrip(t), sep, m);
    ContainsLeft(RStrip(t) + sep, block, m);
  }

  lemma AppendBlockAdds(t: string, block: string, m: string)
    requires Contains(block, m)
    ensures Contains(AppendBlock(t, block), m)
  {
    ContainsRight(RStrip(t) + (if !EndsWith(t, "\n") then "\n\n" else "\n"), block, m);
  }

  // ================================================================ pre-commit

  const RuffHookMarker := "ruff-pre-commit"
  const BlackHookMarker := "psf/black"

  function PrecommitRuffStep(t: string): Merge {
    if !Contains(t, RuffHookMarker) then Merge(PrecommitRuff + (if t != "" then "\n" + t else ""), true)
    else Merge(t, false)
  }

  function PrecommitBlackStep(t: string, ruffOnly: bool): Merge {
    if !ruffOnly && !Contains(t, BlackHookMarker) then Merge(RStrip(t) + "\n" + PrecommitBlack, true)
    else Merge(t, false)
  }

  /** `ensure_precommit`: prepend the Ruff hooks, then append the Black hook unless Ruff-only. */
  function PrecommitMerge(cur: Option<string>, ruffOnly: bool): Merge {
    match cur
    case None => Merge(PrecommitRuff + (if ruffOnly then "" else PrecommitBlack), true)
    case Some(t) =>
      var a := PrecommitRuffStep(t);
      var b := PrecommitBlackStep(a.text, ruffOnly);
      Merge(b.text, a.changed || b.changed)
  }

  /** The hook file declares every hook the run asks for. */
  predicate PrecommitComplete(t: string, ruffOnly: bool) {
    Contains(t, RuffHookMarker) && (ruffOnly || Contains(t, BlackHookMarker))
  }

  lemma PrecommitChangedIffIncomplete(t: string, ruffOnly: bool)
    ensures PrecommitMerge(Some(t), ruffOnly).changed <==> !PrecommitComplete(t, ruffOnly)
    ensures PrecommitComplete(t, ruffOnly) ==> PrecommitMerge(Some(t), ruffOnly).text == t
  {
  }

  lemma PrecommitEstablishes(cur: Option<string>, ruffOnly: bool)
    ensures PrecommitComplete(PrecommitMerge(cur, ruffOnly).text, ruffOnly)
  {
    PrecommitRuffMarker();
    PrecommitBlackMarker();
    match cur
    case None =>
      ContainsLeft(PrecommitRuff, if ruffOnly then "" else PrecommitBlack, RuffHookMarker);
      ContainsRight(PrecommitRuff, PrecommitBlack, BlackHookMarker);
    case Some(t) =>
      var a := PrecommitRuffStep(t);
      if a.changed {
        ContainsLeft(PrecommitRuff, if t != "" then "\n" + t else "", RuffHookMarker);
      }
      assert Contains(a.text, RuffHookMarker);
      if PrecommitBlackStep(a.text, ruffOnly).changed {
        RStripKeeps(a.text, RuffHookMarker);
        ContainsLeft(RStrip(a.text), "\n", RuffHookMarker);
        ContainsLeft(RStrip(a.text) + "\n", PrecommitBlack, RuffHookMarker);
        ContainsRight(RStrip(a.text) + "\n", PrecommitBlack, BlackHookMarker);
      }
  }

  /** A second run with the same flags reports no change and leaves the text as it is. */
  lemma PrecommitIdempotent(cur: Option<string>, ruffOnly: bool)
    ensures var r := PrecommitMerge(cur, ruffOnly);
            PrecommitMerge(Some(r.text), ruffOnly) == Merge(r.text, false)
  {
    PrecommitEstablishes(cur, ruffOnly);
  }

  /** An existing file is reported changed exactly when its text changes. */
  lemma PrecommitChangedIffTextDiffers(t: string, ruffOnly: bool)
    ensures var r := PrecommitMerge(Some(t), ruffOnly);
            r.changed <==> r.text != t
  {
    var r := PrecommitMerge(Some(t), ruffOnly);
    PrecommitEstablishes(Some(t), ruffOnly);
    if r.changed {
      assert !PrecommitComplete(t, ruffOnly);
    }
  }

  /** The original text, minus trailing whitespace, survives in one piece. */
  lemma PrecommitKeepsText(t: string, ruffOnly: bool)
    ensures Contains(PrecommitMerge(Some(t), ruffOnly).text, RStrip(t))
  {
    var a := PrecommitRuffStep(t);
    var b := PrecommitBlackStep(a.text, ruffOnly);
    if t == "" {
      assert OccursAt(b.text, RStrip(t), 0);
    } else {
      if a.changed {
        assert a.text == (PrecommitRuff + "\n") + t;
        RStripKeepsTail(PrecommitRuff + "\n", t);
      } else {
        ContainsSelf(RStrip(t));
      }
      if b.changed {
        ContainsLeft(RStrip(a.text), "\n", RStrip(t));
        ContainsLeft(RStrip(a.text) + "\n", PrecommitBlack, RStrip(t));
      } else {
        ContainsFromRStrip(a.text, RStrip(t));
      }
    }
  }

  /** When the Ruff hook is missing, the result opens with the Ruff hook block. */
  lemma PrecommitPrependsRuff(t: string, ruffOnly: bool)
    requires !Contains(t, RuffHookMarker)
    ensures StartsWith(PrecommitMerge(Some(t), ruffOnly).text, PrecommitRuffHead)
  {
    PrecommitRuffMarker();
    var a := PrecommitRuffStep(t);
    assert OccursAt(a.text, PrecommitRuffHead, 0);
    if PrecommitBlackStep(a.text, ruffOnly).changed {
      RStripKeepsAt(a.text, PrecommitRuffHead, 0);
      assert OccursAt(RStrip(a.text) + "\n" + PrecommitBlack, PrecommitRuffHead, 0);
    }
  }

  /**
   * When the Ruff hook is missing, the whole Ruff hook block comes first,
   * then a newline and the old text, right-stripped.
   */
  lemma PrecommitRuffBeforeText(t: string, ruffOnly: bool)
    requires !Contains(t, RuffHookMarker) && RStrip(t) != []
    ensures StartsWith(PrecommitMerge(Some(t), ruffOnly).text, PrecommitRuff + "\n" + RStrip(t))
  {
    assert t != [];
    var a := PrecommitRuffStep(t);
    assert a.text == PrecommitRuff + "\n" + t;
    PrependedKeepsOrder(PrecommitRuff, t, PrecommitBlack);
    var b := PrecommitBlackStep(a.text, ruffOnly);
    assert b.text == a.text || b.text == RStrip(a.text) + "\n" + PrecommitBlack;
  }

  /** Text put after `head + "\n"`: stripping and appending a tail keep `head`, then the stripped text, in front. */
  lemma PrependedKeepsOrder(head: string, t: string, tail: string)
    requires RStrip(t) != []
    ensures StartsWith(head + "\n" + t, head + "\n" + RStrip(t))
    ensures StartsWith(RStrip(head + "\n" + t) + "\n" + tail, head + "\n" + RStrip(t))
  {
    var p := head + "\n" + RStrip(t);
    assert head + "\n" + t == p + t[|RStrip(t)|..];
    StartsWithAppend(p, t[|RStrip(t)|..]);
    RStripAppend(head + "\n", t);
    assert RStrip(head + "\n" + t) + "\n" + tail == p + ("\n" + tail);
    StartsWithAppend(p, "\n" + tail);
  }

  /** With `ruff_only`, the Black hook is never added: the result is the Ruff step's. */
  lemma PrecommitRuffOnly(cur: Option<string>)
    ensures cur.None? ==> PrecommitMerge(cur, true).text == PrecommitRuff
    ensures cur.Some? ==> PrecommitMerge(cur, true).text == PrecommitRuffStep(cur.value).text
  {
    if cur.None? {
      assert PrecommitRuff + "" == PrecommitRuff;
    }
  }

  // ================================================================ pyproject.toml

  /** The project metadata a run may carry; any field may be missing or empty. */
  datatype ProjectInfo = ProjectInfo(
    name: Option<string>,
    description: Option<string>,
    version: Option<string>,
    package: Option<string>)

  const NoProject := ProjectInfo(None, None, None, None)

  const RuffTableMarker := "[tool.ruff]"
  const BlackTableMarker := "[tool.black]"
  const ProjectMarker := "[project]"
  const ScriptsMarker := "[project.scripts]"
  const BuildMarker := "[build-system]"

  /** `pyver.replace(".", "")`: the version with its dots removed. */
  function Undotted(s: string): (r: string)
    ensures |r| <= |s|
    ensures forall i :: 0 <= i < |r| ==> r[i] != '.' && r[i] in s
    ensures (forall i :: 0 <= i < |s| ==> s[i] != '.') ==> r == s
    ensures |s| == 1 && s[0] == '.' ==> r == []
  {
    if s == [] then []
    else if s[0] == '.' then Undotted(s[1..])
    else [s[0]] + Undotted(s[1..])
  }

  /** Dots are dropped one character at a time: removing them distributes over concatenation. */
  lemma {:induction false} UndottedAppend(a: string, b: string)
    ensures Undotted(a + b) == Undotted(a) + Undotted(b)
  {
    if a == [] {
      assert a + b == b;
    } else {
      assert (a + b)[1..] == a[1..] + b;
      UndottedAppend(a[1..], b);
    }
  }

  /** The value written into both `target-version` slots. */
  function TargetVersion(pyver: string): (tv: string)
    ensures StartsWith(tv, "py") && |tv| <= |pyver| + 2
    ensures forall i :: 2 <= i < |tv| ==> tv[i] != '.' && tv[i] in pyver
  {
    "py" + Undotted(pyver)
  }

  /** Python 3.11 targets `py311`. */
  lemma TargetVersionExample(pyver: string)
    requires pyver == "3.11"
    ensures TargetVersion(pyver) == "py311"
  {
    var major, minor := "3", "11";
    assert pyver == major + "." + minor;
    UndottedAroundDot(major, minor);
    assert "py" + (major + minor) == "py311";
  }

  /** A `major.minor` version with dot-free parts loses exactly its one dot. */
  lemma UndottedAroundDot(major: string, minor: string)
    requires '.' !in major && '.' !in minor
    ensures Undotted(major + "." + minor) == major + minor
  {
    var head := major + ".";
    UndottedAppend(head, minor);
    UndottedAppend(major, ".");
    UndottedDotFree(major);
    UndottedDotFree(minor);
    assert Undotted(head) == major;
  }

  lemma UndottedDotFree(s: string)
    requires '.' !in s
    ensures Undotted(s) == s
  {
  }

  /** `<pkg>.main:main` for a package layout, `main:main` for a flat one. */
  function EntryPoint(package: Option<string>): string {
    if Truthy(package) then package.value + ".main:main" else "main:main"
  }

  function ProjectFields(name: string, version: string, description: string, pyver: string): string {
    "\nname = \"" + name + "\"" +
    "\nversion = \"" + version + "\"" +
    "\ndescription = \"" + description + "\"" +
    "\nrequires-python = \">=" + pyver + "\"\n\n"
  }

  function ScriptsTable(name: string, entry: string): string {
    ScriptsMarker + "\n" + name + " = \"" + entry + "\"\n"
  }

  /** The `[project]` table with its scripts table, defaults filled in. */
  function ProjectBlock(name: string, info: ProjectInfo, pyver: string): string {
    ProjectMarker
    + ProjectFields(name, OrElse(info.version, "0.1.0"), OrElse(info.description, "CLI tool"), pyver)
    + ScriptsTable(name, EntryPoint(info.package))
    + "\n"
  }

  /** The scripts table inserted on its own into an existing `[project]` table. */
  function ScriptsBlock(name: string, entry: string): string {
    "\n" + ScriptsTable(name, entry)
  }

  lemma ProjectBlockMarkers(name: string, info: ProjectInfo, pyver: string)
    ensures Contains(ProjectBlock(name, info, pyver), ProjectMarker)
    ensures Contains(ProjectBlock(name, info, pyver), ScriptsMarker)
    ensures Contains(ProjectBlock(name, info, pyver), ScriptsTable(name, EntryPoint(info.package)))
  {
    var fields := ProjectFields(name, OrElse(info.version, "0.1.0"), OrElse(info.description, "CLI tool"), pyver);
    var table := ScriptsTable(name, EntryPoint(info.package));
    ContainsSelf(ProjectMarker);
    ContainsLeft(ProjectMarker, fields, ProjectMarker);
    ContainsLeft(ProjectMarker + fields, table, ProjectMarker);
    ContainsLeft(ProjectMarker + fields + table, "\n", ProjectMarker);
    ScriptsTableMarker(name, EntryPoint(info.package));
    ContainsInfix(ProjectMarker + fields, table, "\n", ScriptsMarker);
    ContainsMiddle(ProjectMarker + fields, table, "\n");
  }

  lemma ScriptsTableMarker(name: string, entry: string)
    ensures Contains(ScriptsTable(name, entry), ScriptsMarker)
    ensures Contains(ScriptsBlock(name, entry), ScriptsMarker)
  {
    assert OccursAt(ScriptsTable(name, entry), ScriptsMarker, 0);
    ContainsRight("\n", ScriptsTable(name, entry), ScriptsMarker);
  }

  // ---------------------------------------------------------------- the scripts insertion point

  /** A line whose stripped text opens a `[project...` table. */
  predicate OpensProject(line: string) {
    StartsWith(Strip(line), "[project")
  }

  /** A line that opens some table, other than an unindented `[project...` one. */
  predicate ClosesProject(line: string) {
    StartsWith(Strip(line), "[") && !StartsWith(line, "[project")
  }

  /** How the scan sees one line. */
  datatype LineKind = Opens | Closes | Other

  function Kind(line: string): LineKind {
    if OpensProject(line) then Opens else if ClosesProject(line) then Closes else Other
  }

  function Kinds(lines: seq<string>): (ks: seq<LineKind>)
    ensures |ks| == |lines|
  {
    if lines == [] then [] else [Kind(lines[0])] + Kinds(lines[1..])
  }

  lemma {:induction false} KindsAt(lines: seq<string>, i: int)
    requires 0 <= i < |lines|
    ensures Kinds(lines)[i] == Kind(lines[i])
  {
    if i > 0 {
      KindsAt(lines[1..], i - 1);
    }
  }

  /** Line `i` is where the `[project` part ends: a closing line after some opening one. */
  ghost predicate IsBoundary(ks: seq<LineKind>, i: int) {
    0 <= i < |ks| && ks[i] == Closes && exists j :: 0 <= j < i && ks[j] == Opens
  }

  /** The line scan of `ensure_pyproject` from line `i` on, with `inProject` its flag so far. */
  function InsertIndexFrom(ks: seq<LineKind>, i: nat, inProject: bool): (k: nat)
    requires i <= |ks|
    requires inProject <==> exists j :: 0 <= j < i && ks[j] == Opens
    requires forall j :: 0 <= j < i ==> !IsBoundary(ks, j)
    ensures i <= k <= |ks|
    ensures k < |ks| ==> IsBoundary(ks, k)
    ensures forall j :: 0 <= j < k ==> !IsBoundary(ks, j)
    decreases |ks| - i
  {
    if i == |ks| then |ks|
    else if ks[i] == Opens then InsertIndexFrom(ks, i + 1, true)
    else if inProject && ks[i] == Closes then i
    else InsertIndexFrom(ks, i + 1, inProject)
  }

  /**
   * Where the scripts table goes: the first line that closes the `[project` part,
   * or the end when there is none. Never before the first line.
   */
  function ScriptsInsertIndex(lines: seq<string>): (k: nat)
    ensures k <= |lines|
    ensures k < |lines| ==> IsBoundary(Kinds(lines), k)
    ensures forall j :: 0 <= j < k ==> !IsBoundary(Kinds(lines), j)
    ensures |lines| > 0 ==> k > 0
  {
    InsertIndexFrom(Kinds(lines), 0, false)
  }

  /**
   * The insertion point in terms of the lines themselves: when it is not the end,
   * its line opens a table other than an unindented `[project...` one, and some
   * earlier line opens a `[project` table.
   */
  lemma ScriptsInsertIndexLine(lines: seq<string>)
    ensures var k := ScriptsInsertIndex(lines);
            k < |lines| ==>
              !OpensProject(lines[k]) && ClosesProject(lines[k]) &&
              exists j :: 0 <= j < k && OpensProject(lines[j])
  {
    var k := ScriptsInsertIndex(lines);
    if k < |lines| {
      var ks := Kinds(lines);
      KindsAt(lines, k);
      var j :| 0 <= j < k && ks[j] == Opens;
      KindsAt(lines, j);
    }
  }

  /**
   * The `for i, line in enumerate(lines)` scan of `ensure_pyproject`: it remembers whether a `[project` line was
   * seen and stops at the first line that closes that part.
   */
  method FindScriptsInsertIndex(lines: seq<string>) returns (insertIdx: nat)
    ensures insertIdx == ScriptsInsertIndex(lines)
  {
    ghost var ks := Kinds(lines);
    insertIdx := |lines|;
    var inProject := false;
    var i := 0;
    while i < |lines|
      invariant 0 <= i <= |lines|
      invariant inProject <==> exists j :: 0 <= j < i && ks[j] == Opens
      invariant forall j :: 0 <= j < i ==> !IsBoundary(ks, j)
      invariant InsertIndexFrom(ks, i, inProject) == ScriptsInsertIndex(lines)
      invariant insertIdx == |lines|
    {
      KindsAt(lines, i);
      if OpensProject(lines[i]) {
        inProject := true;
      } else if inProject && ClosesProject(lines[i]) {
        insertIdx := i;
        break;
      }
      i := i + 1;
    }
  }

  /** `lines.insert(k, block)` followed by `"\n".join(lines)`. */
  function InsertScripts(t: string, block: string): string {
    var lines := Lines(t);
    var k := ScriptsInsertIndex(lines);
    Join(lines[..k] + [block] + lines[k..])
  }

  /** Where, in characters, the scripts block lands: the end of the lines before the insertion point. */
  function ScriptsOffset(t: string): nat {
    var lines := Lines(t);
    |Join(lines[..ScriptsInsertIndex(lines)])|
  }

  /**
   * Inserting the block as a list element splices `"\n" + block` into the text
   * at a line boundary; every other line keeps its place and order.
   */
  lemma {:induction false} InsertScriptsSplices(t: string, block: string)
    ensures var o := ScriptsOffset(t);
            o <= |t| && (o == |t| || t[o] == '\n') &&
            InsertScripts(t, block) == t[..o] + "\n" + block + t[o..]
  {
    var lines := Lines(t);
    JoinLines(t);
    JoinInsert(lines, ScriptsInsertIndex(lines), block);
  }

  /** Inserting an element into a joined list splices it, after a newline, at the end of the elements before it. */
  lemma JoinInsert(ls: seq<string>, k: nat, block: string)
    requires 0 < k <= |ls|
    ensures var o := |Join(ls[..k])|;
            o <= |Join(ls)| && (o == |Join(ls)| || Join(ls)[o] == '\n') &&
            Join(ls[..k] + [block] + ls[k..]) == Join(ls)[..o] + "\n" + block + Join(ls)[o..]
  {
    var before := ls[..k];
    JoinAppend(before, [block]);
    assert Join([block]) == block;
    if k < |ls| {
      JoinInsertMiddle(before, ls[k..], block);
      assert ls == before + ls[k..];
    } else {
      assert before == ls;
      assert before + [block] + ls[k..] == before + [block];
    }
  }

  lemma JoinInsertMiddle(before: seq<string>, after: seq<string>, block: string)
    requires |before| > 0 && |after| > 0
    ensures var t := Join(before + after);
            var o := |Join(before)|;
            o < |t| && t[o] == '\n' &&
            Join(before + [block] + after) == t[..o] + "\n" + block + t[o..]
  {
    var o := |Join(before)|;
    JoinAppend(before, after);
    JoinAppend(before, [block]);
    assert Join([block]) == block;
    JoinAppend(before + [block], after);
    var t := Join(before + after);
    assert t[..o] == Join(before);
    assert t[o..] == "\n" + Join(after);
  }

  // ---------------------------------------------------------------- the pyproject steps

  /** The `[project]` part of `ensure_pyproject`, run only when a project name is given. */
  function ProjectStep(t: string, info: ProjectInfo, pyver: string): Merge {
    if Truthy(info.name) && !Contains(t, ProjectMarker) then
      var block := ProjectBlock(info.name.value, info, pyver);
      if Contains(t, BuildMarker) then Merge(Replace(t, BuildMarker, BuildMarker + ("\n\n" + block), true), true)
      else Merge(block + t, true)
    else if Truthy(info.name) && !Contains(t, ScriptsMarker) then
      if Contains(t, ProjectMarker) then Merge(InsertScripts(t, ScriptsBlock(info.name.value, EntryPoint(info.package))), true)
      else Merge(t, false)
    else Merge(t, false)
  }

  function RuffStep(t: string, tv: string): Merge {
    if !Contains(t, RuffTableMarker) then Merge(AppendBlock(t, RuffBlock(tv)), true) else Merge(t, false)
  }

  function BlackStep(t: string, ruffOnly: bool, tv: string): Merge {
    if !ruffOnly && !Contains(t, BlackTableMarker) then Merge(AppendBlock(t, BlackBlock(tv)), true) else Merge(t, false)
  }

  /** A new file: the build table, the project tables when named, the Ruff table, the Black table. */
  function FreshPyproject(ruffOnly: bool, pyver: string, info: ProjectInfo): string {
    var tv := TargetVersion(pyver);
    MinimalBuild + "\n\n"
    + (if Truthy(info.name) then ProjectBlock(info.name.value, info, pyver) else "")
    + RuffBlock(tv)
    + (if ruffOnly then "" else "\n\n" + BlackBlock(tv))
  }

  /** `ensure_pyproject`: project tables first, then the Ruff table, then the Black table. */
  function PyprojectMerge(cur: Option<string>, ruffOnly: bool, pyver: string, info: ProjectInfo): Merge {
    var tv := TargetVersion(pyver);
    match cur
    case None => Merge(FreshPyproject(ruffOnly, pyver, info), true)
    case Some(t) =>
      var a := ProjectStep(t, info, pyver);
      var b := RuffStep(a.text, tv);
      var c := BlackStep(b.text, ruffOnly, tv);
      Merge(c.text, a.changed || b.changed || c.changed)
  }

  /** The configuration holds every table the run asks for. */
  predicate PyprojectComplete(t: string, ruffOnly: bool, info: ProjectInfo) {
    Contains(t, RuffTableMarker)
    && (ruffOnly || Contains(t, BlackTableMarker))
    && (Truthy(info.name) ==> Contains(t, ProjectMarker) && Contains(t, ScriptsMarker))
  }

  /** A table header whose only `]` is its last character and which has no newline. */
  predicate TableHeader(m: string) {
    |m| > 0 && m[|m| - 1] == ']' &&
    forall i :: 0 <= i < |m| - 1 ==> m[i] != ']' && m[i] != '\n'
  }

  lemma TableHeaders()
    ensures TableHeader(RuffTableMarker) && TableHeader(BlackTableMarker)
    ensures TableHeader(ProjectMarker) && TableHeader(ScriptsMarker)
  {
  }

  /** Splicing text in right after the first `[build-system]` keeps every table header. */
  lemma BuildSpliceKeeps(t: string, x: string, m: string)
    requires TableHeader(m) && Contains(t, m) && Contains(t, BuildMarker)
    ensures Contains(Replace(t, BuildMarker, BuildMarker + x, true), m)
  {
    ReplaceOnceSplices(t, BuildMarker, x);
    var q := IndexOf(t, BuildMarker);
    CharOfOccurrence(t, BuildMarker, q, |BuildMarker| - 1);
    InsertAfterCharKeeps(t, q + |BuildMarker|, x, m);
  }

  lemma BuildSpliceAdds(t: string, x: string, m: string)
    requires Contains(x, m) && Contains(t, BuildMarker)
    ensures Contains(Replace(t, BuildMarker, BuildMarker + x, true), m)
  {
    ReplaceOnceSplices(t, BuildMarker, x);
    var e := IndexOf(t, BuildMarker) + |BuildMarker|;
    ContainsInfix(t[..e], x, t[e..], m);
  }

  /** Inserting a line keeps every string without a newline that the text had. */
  lemma ScriptsSpliceKeeps(t: string, block: string, m: string)
    requires TableHeader(m) && Contains(t, m)
    ensures Contains(InsertScripts(t, block), m)
  {
    InsertScriptsSplices(t, block);
    var o := ScriptsOffset(t);
    forall c | c in m ensures c != '\n' {
      var i :| 0 <= i < |m| && m[i] == c;
    }
    InsertAtLineBoundaryKeeps(t, o, "\n" + block, m);
    assert t[..o] + ("\n" + block) + t[o..] == t[..o] + "\n" + block + t[o..];
  }

  lemma ScriptsSpliceAdds(t: string, block: string, m: string)
    requires Contains(block, m)
    ensures Contains(InsertScripts(t, block), m)
  {
    InsertScriptsSplices(t, block);
    var o := ScriptsOffset(t);
    ContainsRight(t[..o] + "\n", block, m);
    ContainsLeft(t[..o] + "\n" + block, t[o..], m);
  }

  /** The project step keeps every table header the text had. */
  lemma ProjectStepKeeps(t: string, info: ProjectInfo, pyver: string, m: string)
    requires TableHeader(m) && Contains(t, m)
    ensures Contains(ProjectStep(t, info, pyver).text, m)
  {
    if Truthy(info.name) && !Contains(t, ProjectMarker) {
      var block := ProjectBlock(info.name.value, info, pyver);
      if Contains(t, BuildMarker) {
        BuildSpliceKeeps(t, "\n\n" + block, m);
      } else {
        ContainsRight(block, t, m);
      }
    } else if Truthy(info.name) && !Contains(t, ScriptsMarker) && Contains(t, ProjectMarker) {
      ScriptsSpliceKeeps(t, ScriptsBlock(info.name.value, EntryPoint(info.package)), m);
    }
  }

  /** With a project name, the project step leaves both project tables in the text. */
  lemma ProjectStepEstablishes(t: string, info: ProjectInfo, pyver: string)
    requires Truthy(info.name)
    ensures Contains(ProjectStep(t, info, pyver).text, ProjectMarker)
    ensures Contains(ProjectStep(t, info, pyver).text, ScriptsMarker)
  {
    if !Contains(t, ProjectMarker) {
      var block := ProjectBlock(info.name.value, info, pyver);
      ProjectBlockMarkers(info.name.value, info, pyver);
      if Contains(t, BuildMarker) {
        ContainsRight("\n\n", block, ProjectMarker);
        ContainsRight("\n\n", block, ScriptsMarker);
        BuildSpliceAdds(t, "\n\n" + block, ProjectMarker);
        BuildSpliceAdds(t, "\n\n" + block, ScriptsMarker);
      } else {
        ContainsLeft(block, t, ProjectMarker);
        ContainsLeft(block, t, ScriptsMarker);
      }
    } else if !Contains(t, ScriptsMarker) {
      var block := ScriptsBlock(info.name.value, EntryPoint(info.package));
      TableHeaders();
      ScriptsSpliceKeeps(t, block, ProjectMarker);
      ScriptsTableMarker(info.name.value, EntryPoint(info.package));
      ScriptsSpliceAdds(t, block, ScriptsMarker);
    }
  }

  /** Both table-appending steps keep every table header the text had. */
  lemma TableStepsKeep(t: string, ruffOnly: bool, tv: string, m: string)
    requires TableHeader(m) && Contains(t, m)
    ensures Contains(RuffStep(t, tv).text, m)
    ensures Contains(BlackStep(t, ruffOnly, tv).text, m)
  {
    AppendBlockKeeps(t, RuffBlock(tv), m);
    AppendBlockKeeps(t, BlackBlock(tv), m);
  }

  /** A fresh configuration holds every table the run asks for. */
  lemma FreshPyprojectComplete(ruffOnly: bool, pyver: string, info: ProjectInfo)
    ensures PyprojectComplete(PyprojectMerge(None, ruffOnly, pyver, info).text, ruffOnly, info)
  {
    var tv := TargetVersion(pyver);
    RuffBlockMarker(tv);
    BlackBlockMarker(tv);
    var proj := if Truthy(info.name) then ProjectBlock(info.name.value, info, pyver) else "";
    var black := if ruffOnly then "" else "\n\n" + BlackBlock(tv);
    if !ruffOnly {
      ContainsRight("\n\n", BlackBlock(tv), BlackTableMarker);
    }
    if Truthy(info.name) {
      ProjectBlockMarkers(info.name.value, info, pyver);
    }
    FreshLayoutComplete(MinimalBuild + "\n\n", proj, RuffBlock(tv), black, ruffOnly, info);
  }

  /** The fresh layout holds each table its parts hold. */
  lemma FreshLayoutComplete(a: string, proj: string, ruff: string, black: string, ruffOnly: bool, info: ProjectInfo)
    requires Contains(ruff, RuffTableMarker)
    requires ruffOnly || Contains(black, BlackTableMarker)
    requires Truthy(info.name) ==> Contains(proj, ProjectMarker) && Contains(proj, ScriptsMarker)
    ensures PyprojectComplete(a + proj + ruff + black, ruffOnly, info)
  {
    ContainsRight(a + proj, ruff, RuffTableMarker);
    ContainsLeft(a + proj + ruff, black, RuffTableMarker);
    if !ruffOnly {
      ContainsRight(a + proj + ruff, black, BlackTableMarker);
    }
    if Truthy(info.name) {
      FreshKeepsProjectMarker(a, proj, ruff, black, ProjectMarker);
      FreshKeepsProjectMarker(a, proj, ruff, black, ScriptsMarker);
    }
  }

  lemma FreshKeepsProjectMarker(a: string, proj: string, b: string, c: string, m: string)
    requires Contains(proj, m)
    ensures Contains(a + proj + b + c, m)
  {
    ContainsRight(a, proj, m);
    ContainsLeft(a + proj, b, m);
    ContainsLeft(a + proj + b, c, m);
  }

  /** The Ruff and Black steps together keep every table header the text had. */
  lemma TableStepsKeepBoth(t: string, ruffOnly: bool, tv: string, m: string)
    requires TableHeader(m) && Contains(t, m)
    ensures Contains(BlackStep(RuffStep(t, tv).text, ruffOnly, tv).text, m)
  {
    TableStepsKeep(t, ruffOnly, tv, m);
    TableStepsKeep(RuffStep(t, tv).text, ruffOnly, tv, m);
  }

  /** The Ruff and Black steps together leave the tables the run asks for. */
  lemma TableStepsEstablish(t: string, ruffOnly: bool, tv: string)
    ensures Contains(BlackStep(RuffStep(t, tv).text, ruffOnly, tv).text, RuffTableMarker)
    ensures !ruffOnly ==> Contains(BlackStep(RuffStep(t, tv).text, ruffOnly, tv).text, BlackTableMarker)
  {
    TableHeaders();
    var b := RuffStep(t, tv);
    if b.changed {
      RuffBlockMarker(tv);
      AppendBlockAdds(t, RuffBlock(tv), RuffTableMarker);
    }
    TableStepsKeep(b.text, ruffOnly, tv, RuffTableMarker);
    if BlackStep(b.text, ruffOnly, tv).changed {
      BlackBlockMarker(tv);
      AppendBlockAdds(b.text, BlackBlock(tv), BlackTableMarker);
    }
  }

  /** After one run on an existing configuration, every table the run asks for is there. */
  lemma ExistingPyprojectComplete(t: string, ruffOnly: bool, pyver: string, info: ProjectInfo)
    ensures PyprojectComplete(PyprojectMerge(Some(t), ruffOnly, pyver, info).text, ruffOnly, info)
  {
    var tv := TargetVersion(pyver);
    var a := ProjectStep(t, info, pyver);
    if Truthy(info.name) {
      TableHeaders();
      ProjectStepEstablishes(t, info, pyver);
      TableStepsKeepBoth(a.text, ruffOnly, tv, ProjectMarker);
      TableStepsKeepBoth(a.text, ruffOnly, tv, ScriptsMarker);
    }
    TableStepsEstablish(a.text, ruffOnly, tv);
  }

  lemma PyprojectEstablishes(cur: Option<string>, ruffOnly: bool, pyver: string, info: ProjectInfo)
    ensures PyprojectComplete(PyprojectMerge(cur, ruffOnly, pyver, info).text, ruffOnly, info)
  {
    if cur.None? {
      FreshPyprojectComplete(ruffOnly, pyver, info);
    } else {
      ExistingPyprojectComplete(cur.value, ruffOnly, pyver, info);
    }
  }

  lemma PyprojectChangedIffIncomplete(t: string, ruffOnly: bool, pyver: string, info: ProjectInfo)
    ensures PyprojectMerge(Some(t), ruffOnly, pyver, info).changed <==> !PyprojectComplete(t, ruffOnly, info)
    ensures PyprojectComplete(t, ruffOnly, info) ==> PyprojectMerge(Some(t), ruffOnly, pyver, info).text == t
  {
    ProjectStepChanged(t, info, pyver);
  }

  /** The project step changes the text exactly when a name is given and a project table is missing. */
  lemma ProjectStepChanged(t: string, info: ProjectInfo, pyver: string)
    ensures var a := ProjectStep(t, info, pyver);
            (a.changed <==> Truthy(info.name) && !(Contains(t, ProjectMarker) && Contains(t, ScriptsMarker))) &&
            (!a.changed ==> a.text == t)
  {
  }

  /** A second run with the same inputs reports no change and leaves the text as it is. */
  lemma PyprojectIdempotent(cur: Option<string>, ruffOnly: bool, pyver: string, info: ProjectInfo)
    ensures var r := PyprojectMerge(cur, ruffOnly, pyver, info);
            PyprojectMerge(Some(r.text), ruffOnly, pyver, info) == Merge(r.text, false)
  {
    var r := PyprojectMerge(cur, ruffOnly, pyver, info);
    PyprojectEstablishes(cur, ruffOnly, pyver, info);
    PyprojectChangedIffIncomplete(r.text, ruffOnly, pyver, info);
  }

  /** An existing file is reported changed exactly when its text changes. */
  lemma PyprojectChangedIffTextDiffers(t: string, ruffOnly: bool, pyver: string, info: ProjectInfo)
    ensures var r := PyprojectMerge(Some(t), ruffOnly, pyver, info);
            r.changed <==> r.text != t
  {
    var r := PyprojectMerge(Some(t), ruffOnly, pyver, info);
    var tv := TargetVersion(pyver);
    var a := ProjectStep(t, info, pyver);
    var b := RuffStep(a.text, tv);
    TableHeaders();
    PyprojectEstablishes(Some(t), ruffOnly, pyver, info);
  }

  /**
   * Where the project tables go: right after the end of the first `[build-system]`
   * header, splitting it from its keys, or in front of the text when there is none.
   */
  lemma ProjectBlockPlacement(t: string, info: ProjectInfo, pyver: string)
    requires Truthy(info.name) && !Contains(t, ProjectMarker)
    ensures var r := ProjectStep(t, info, pyver).text;
            var block := ProjectBlock(info.name.value, info, pyver);
            (Contains(t, BuildMarker) ==>
               var e := IndexOf(t, BuildMarker) + |BuildMarker|;
               r == t[..e] + "\n\n" + block + t[e..]) &&
            (!Contains(t, BuildMarker) ==> r == block + t)
  {
    if Contains(t, BuildMarker) {
      var block := ProjectBlock(info.name.value, info, pyver);
      ReplaceOnceSplices(t, BuildMarker, "\n\n" + block);
      var e := IndexOf(t, BuildMarker) + |BuildMarker|;
      assert t[..e] + ("\n\n" + block) + t[e..] == t[..e] + "\n\n" + block + t[e..];
    }
  }

  /**
   * The scripts table alone goes in as one line at a line boundary: the text
   * before and after it is the original text, in order.
   */
  lemma ScriptsBlockPlacement(t: string, info: ProjectInfo, pyver: string)
    requires Truthy(info.name) && Contains(t, ProjectMarker) && !Contains(t, ScriptsMarker)
    ensures var o := ScriptsOffset(t);
            o <= |t| && (o == |t| || t[o] == '\n') &&
            ProjectStep(t, info, pyver).text
              == t[..o] + "\n" + ScriptsBlock(info.name.value, EntryPoint(info.package)) + t[o..]
  {
    InsertScriptsSplices(t, ScriptsBlock(info.name.value, EntryPoint(info.package)));
  }

  /**
   * Whenever the Ruff table is written, it carries `py` plus the version without
   * dots (the project step runs first, so the hypothesis is about its output).
   */
  lemma PyprojectTargetVersion(cur: Option<string>, ruffOnly: bool, pyver: string, info: ProjectInfo)
    requires cur.None? || !Contains(ProjectStep(cur.value, info, pyver).text, RuffTableMarker)
    ensures Contains(PyprojectMerge(cur, ruffOnly, pyver, info).text, RuffTarget(TargetVersion(pyver)))
  {
    var tv := TargetVersion(pyver);
    var m := RuffTarget(tv);
    RuffBlockMarker(tv);
    match cur
    case None =>
      var proj := if Truthy(info.name) then ProjectBlock(info.name.value, info, pyver) else "";
      var black := if ruffOnly then "" else "\n\n" + BlackBlock(tv);
      ContainsRight(MinimalBuild + "\n\n" + proj, RuffBlock(tv), m);
      ContainsLeft(MinimalBuild + "\n\n" + proj + RuffBlock(tv), black, m);
    case Some(t) =>
      ExistingTargetVersion(ProjectStep(t, info, pyver).text, ruffOnly, tv);
  }

  /** The Ruff table appended to text without one keeps its target version through the Black step. */
  lemma ExistingTargetVersion(a: string, ruffOnly: bool, tv: string)
    requires !Contains(a, RuffTableMarker)
    ensures Contains(BlackStep(RuffStep(a, tv).text, ruffOnly, tv).text, RuffTarget(tv))
  {
    var m := RuffTarget(tv);
    RuffBlockMarker(tv);
    assert m[|m| - 1] == '"';
    AppendBlockAdds(a, RuffBlock(tv), m);
    AppendBlockKeeps(RuffStep(a, tv).text, BlackBlock(tv), m);
  }

  // ================================================================ ci.yml

  const FormatCheck := "ruff format --check"
  const LintCheck := "ruff check"
  const BlackCheck := "black --check"
  const RuffInstall := "pip install ruff"
  const BlackInstall := "pip install black"
  const InstallPrefix := "pip install "

  /** The Black install line after every `pip install ruff`, when Black is not installed yet. */
  function PatchInstall(t: string): string {
    if Contains(t, RuffInstall) && !Contains(t, BlackInstall) then Replace(t, RuffInstall, RuffInstall + BlackDepStep, false)
    else t
  }

  /** The Black check step, after a newline is ensured and a blank line. */
  function AddBlackStep(t: string): string {
    (if !EndsWith(t, "\n") then t + "\n" else t) + "\n" + BlackCheckStep
  }

  /** `ensure_ci`: append the whole workflow, or add what Black needs to an existing one. */
  function CiMerge(cur: Option<string>, ruffOnly: bool, pyver: string): Merge {
    var blackDep := if ruffOnly then "" else BlackDepStep;
    var blackStep := if ruffOnly then "" else BlackCheckStep;
    match cur
    case None => Merge(CiTemplate(pyver, blackDep, blackStep), true)
    case Some(t) =>
      if !Contains(t, FormatCheck) || !Contains(t, LintCheck) then
        Merge(RStrip(t) + "\n\n" + CiTemplate(pyver, blackDep, blackStep), true)
      else if !ruffOnly && !Contains(t, BlackCheck) then
        Merge(AddBlackStep(PatchInstall(t)), true)
      else if !ruffOnly && !Contains(t, BlackInstall) && Contains(t, RuffInstall) then
        Merge(Replace(t, RuffInstall, RuffInstall + BlackDepStep, true), true)
      else Merge(t, false)
  }

  /** The workflow runs both Ruff checks and, unless Ruff-only, the Black check with Black installed. */
  predicate CiComplete(t: string, ruffOnly: bool) {
    Contains(t, FormatCheck) && Contains(t, LintCheck) &&
    (ruffOnly || (Contains(t, BlackCheck) && (Contains(t, BlackInstall) || !Contains(t, RuffInstall))))
  }

  /**
   * A Ruff check written on the install line itself; patching that install line
   * would cut the check in two.
   */
  predicate SplitsRuffCheck(t: string) {
    Contains(t, InstallPrefix + FormatCheck) || Contains(t, InstallPrefix + LintCheck)
  }

  lemma CiChangedIffIncomplete(t: string, ruffOnly: bool, pyver: string)
    ensures CiMerge(Some(t), ruffOnly, pyver).changed <==> !CiComplete(t, ruffOnly)
    ensures CiComplete(t, ruffOnly) ==> CiMerge(Some(t), ruffOnly, pyver).text == t
  {
  }

  /**
   * Unless a Ruff check sits on the install line, patching the install line
   * cannot cut a Ruff or Black check in two.
   */
  lemma InstallLineNoStraddle(t: string, m: string)
    requires m == FormatCheck || m == LintCheck || m == BlackCheck
    requires !SplitsRuffCheck(t)
    ensures NoStraddle(t, RuffInstall, m)
  {
    forall j: nat, q: nat | OccursAt(t, RuffInstall, j) && OccursAt(t, m, q)
      ensures !(q < j + |RuffInstall| < q + |m|)
    {
      InstallLineNoStraddleAt(t, m, j, q);
    }
  }

  lemma InstallLineNoStraddleAt(t: string, m: string, j: nat, q: nat)
    requires m == FormatCheck || m == LintCheck || m == BlackCheck
    requires !SplitsRuffCheck(t)
    requires OccursAt(t, RuffInstall, j) && OccursAt(t, m, q)
    ensures !(q < j + |RuffInstall| < q + |m|)
  {
    if q < j + |RuffInstall| < q + |m| {
      InstallLineLetters(m);
      if q <= j {
        CharOfOccurrence(t, m, q, j - q);
        CharOfOccurrence(t, RuffInstall, j, 0);
      } else {
        CharOfOccurrence(t, m, q, 0);
        CharOfOccurrence(t, RuffInstall, j, q - j);
        if m != BlackCheck {
          InstallPrefixBefore(t, m, j, q);
        }
      }
    }
  }

  /** The letters that rule out a straddle: no check has a `p`, and `r` is the only way in. */
  lemma InstallLineLetters(m: string)
    requires m == FormatCheck || m == LintCheck || m == BlackCheck
    ensures 'p' !in m && RuffInstall[0] == 'p'
    ensures m[0] == (if m == BlackCheck then 'b' else 'r')
    ensures 'b' !in RuffInstall
    ensures forall i :: 0 <= i < |RuffInstall| && RuffInstall[i] == 'r' ==> i == 12
  {
  }

  /** A Ruff check starting at the `r` of `pip install ruff` sits on the install line. */
  lemma InstallPrefixBefore(t: string, m: string, j: nat, q: nat)
    requires m == FormatCheck || m == LintCheck
    requires OccursAt(t, RuffInstall, j) && OccursAt(t, m, q) && q == j + 12
    ensures SplitsRuffCheck(t)
  {
    assert t[j..q] == RuffInstall[..12] == InstallPrefix;
    assert t[j..q + |m|] == t[j..q] + t[q..q + |m|];
    ContainsAt(t, InstallPrefix + m, j);
  }

  /** A fresh workflow is complete. */
  lemma FreshCiComplete(ruffOnly: bool, pyver: string)
    ensures CiComplete(CiMerge(None, ruffOnly, pyver).text, ruffOnly)
  {
    if ruffOnly {
      CiTemplateMarkers(pyver, "", "");
    } else {
      CiTemplateMarkers(pyver, BlackDepStep, BlackCheckStep);
      CiTemplateBlackMarkers(pyver);
    }
  }

  /** Appending the whole workflow makes any text complete. */
  lemma AppendedCiComplete(t: string, ruffOnly: bool, pyver: string)
    ensures var blackDep := if ruffOnly then "" else BlackDepStep;
            var blackStep := if ruffOnly then "" else BlackCheckStep;
            CiComplete(RStrip(t) + "\n\n" + CiTemplate(pyver, blackDep, blackStep), ruffOnly)
  {
    var blackDep := if ruffOnly then "" else BlackDepStep;
    var blackStep := if ruffOnly then "" else BlackCheckStep;
    var ci := CiTemplate(pyver, blackDep, blackStep);
    CiTemplateMarkers(pyver, blackDep, blackStep);
    ContainsRight(RStrip(t) + "\n\n", ci, FormatCheck);
    ContainsRight(RStrip(t) + "\n\n", ci, LintCheck);
    if !ruffOnly {
      CiTemplateBlackMarkers(pyver);
      ContainsRight(RStrip(t) + "\n\n", ci, BlackCheck);
      ContainsRight(RStrip(t) + "\n\n", ci, BlackInstall);
    }
  }

  /** The install-line patch keeps the Ruff checks and leaves Black installed if Ruff is. */
  lemma PatchInstallEffect(t: string)
    requires Contains(t, FormatCheck) && Contains(t, LintCheck) && !SplitsRuffCheck(t)
    ensures Contains(PatchInstall(t), FormatCheck) && Contains(PatchInstall(t), LintCheck)
    ensures Contains(PatchInstall(t), BlackInstall) || !Contains(t, RuffInstall)
    ensures !Contains(t, RuffInstall) ==> PatchInstall(t) == t
  {
    if Contains(t, RuffInstall) && !Contains(t, BlackInstall) {
      InstallLineNoStraddle(t, FormatCheck);
      InstallLineNoStraddle(t, LintCheck);
      ReplaceKeeps(t, RuffInstall, BlackDepStep, false, FormatCheck);
      ReplaceKeeps(t, RuffInstall, BlackDepStep, false, LintCheck);
      ReplaceIntroduces(t, RuffInstall, RuffInstall + BlackDepStep, false);
      BlackStepsMarkers();
      ContainsRight(RuffInstall, BlackDepStep, BlackInstall);
      ContainsTrans(PatchInstall(t), RuffInstall + BlackDepStep, BlackInstall);
    }
  }

  /**
   * `PatchInstall` in full: with Ruff installed and Black not, the Black install
   * line goes in right after the first `pip install ruff` and the rest of the
   * text is patched the same way; otherwise the text is left alone.
   */
  lemma PatchInstallSplices(t: string)
    ensures Contains(t, RuffInstall) && !Contains(t, BlackInstall) ==>
              var e := IndexOf(t, RuffInstall) + |RuffInstall|;
              PatchInstall(t) == t[..e] + BlackDepStep + Replace(t[e..], RuffInstall, RuffInstall + BlackDepStep, false)
    ensures !Contains(t, RuffInstall) || Contains(t, BlackInstall) ==> PatchInstall(t) == t
  {
    if Contains(t, RuffInstall) && !Contains(t, BlackInstall) {
      ReplaceAllSplices(t, RuffInstall, BlackDepStep);
    }
  }

  /** Adding the Black check step keeps everything the text had. */
  lemma AddBlackStepKeeps(t: string, m: string)
    requires Contains(t, m)
    ensures Contains(AddBlackStep(t), m)
  {
    var w := if !EndsWith(t, "\n") then t + "\n" else t;
    ContainsLeft(t, if !EndsWith(t, "\n") then "\n" else "", m);
    assert t + (if !EndsWith(t, "\n") then "\n" else "") == w;
    ContainsLeft(w, "\n", m);
    ContainsLeft(w + "\n", BlackCheckStep, m);
  }

  /** Adding the Black check step brings the check, and keeps the text in front. */
  lemma AddBlackStepAdds(t: string)
    ensures Contains(AddBlackStep(t), BlackCheck)
    ensures StartsWith(AddBlackStep(t), t)
  {
    var w := if !EndsWith(t, "\n") then t + "\n" else t;
    BlackStepsMarkers();
    ContainsRight(w + "\n", BlackCheckStep, BlackCheck);
    assert AddBlackStep(t)[..|t|] == t;
  }

  /** With no Ruff install line, adding the Black step does not create one. */
  lemma AddBlackStepNoInstall(t: string)
    requires !Contains(t, RuffInstall)
    ensures !Contains(AddBlackStep(t), RuffInstall)
  {
    var gap := if !EndsWith(t, "\n") then "\n" else "";
    var u := gap + "\n" + BlackCheckStep;
    BlackCheckStepHasNoF();
    assert 'f' !in u;
    assert AddBlackStep(t) == t + u;
    AppendKeepsAbsent(t, u, RuffInstall);
  }

  /** Case two of the merge: patched install line plus Black step make the workflow complete. */
  lemma BlackStepCiComplete(t: string)
    requires Contains(t, FormatCheck) && Contains(t, LintCheck) && !SplitsRuffCheck(t)
    ensures CiComplete(AddBlackStep(PatchInstall(t)), false)
  {
    var u := PatchInstall(t);
    PatchInstallEffect(t);
    AddBlackStepKeeps(u, FormatCheck);
    AddBlackStepKeeps(u, LintCheck);
    AddBlackStepAdds(u);
    if Contains(u, BlackInstall) {
      AddBlackStepKeeps(u, BlackInstall);
    } else {
      AddBlackStepNoInstall(u);
    }
  }

  /** Case three of the merge: the first install line gains the Black install. */
  lemma BlackDepCiComplete(t: string)
    requires Contains(t, FormatCheck) && Contains(t, LintCheck) && Contains(t, BlackCheck)
    requires Contains(t, RuffInstall) && !SplitsRuffCheck(t)
    ensures CiComplete(Replace(t, RuffInstall, RuffInstall + BlackDepStep, true), false)
  {
    var r := Replace(t, RuffInstall, RuffInstall + BlackDepStep, true);
    InstallLineNoStraddle(t, FormatCheck);
    InstallLineNoStraddle(t, LintCheck);
    InstallLineNoStraddle(t, BlackCheck);
    ReplaceKeeps(t, RuffInstall, BlackDepStep, true, FormatCheck);
    ReplaceKeeps(t, RuffInstall, BlackDepStep, true, LintCheck);
    ReplaceKeeps(t, RuffInstall, BlackDepStep, true, BlackCheck);
    ReplaceIntroduces(t, RuffInstall, RuffInstall + BlackDepStep, true);
    BlackStepsMarkers();
    ContainsRight(RuffInstall, BlackDepStep, BlackInstall);
    ContainsTrans(r, RuffInstall + BlackDepStep, BlackInstall);
  }

  /**
   * One run makes the workflow complete, unless a Ruff check sits on the
   * `pip install ruff` line that the Black patch rewrites.
   */
  lemma CiEstablishes(cur: Option<string>, ruffOnly: bool, pyver: string)
    requires cur.None? || !SplitsRuffCheck(cur.value)
    ensures CiComplete(CiMerge(cur, ruffOnly, pyver).text, ruffOnly)
  {
    match cur
    case None => FreshCiComplete(ruffOnly, pyver);
    case Some(t) =>
      if !Contains(t, FormatCheck) || !Contains(t, LintCheck) {
        AppendedCiComplete(t, ruffOnly, pyver);
      } else if !ruffOnly && !Contains(t, BlackCheck) {
        BlackStepCiComplete(t);
      } else if !ruffOnly && !Contains(t, BlackInstall) && Contains(t, RuffInstall) {
        BlackDepCiComplete(t);
      }
  }

  /** Under the same hypothesis, a second run reports no change and leaves the text as it is. */
  lemma CiIdempotent(cur: Option<string>, ruffOnly: bool, pyver: string)
    requires cur.None? || !SplitsRuffCheck(cur.value)
    ensures var r := CiMerge(cur, ruffOnly, pyver);
            CiMerge(Some(r.text), ruffOnly, pyver) == Merge(r.text, false)
  {
    CiEstablishes(cur, ruffOnly, pyver);
  }

  /** An existing workflow is reported changed exactly when its text changes. */
  lemma CiChangedIffTextDiffers(t: string, ruffOnly: bool, pyver: string)
    ensures var r := CiMerge(Some(t), ruffOnly, pyver);
            r.changed <==> r.text != t
  {
    var r := CiMerge(Some(t), ruffOnly, pyver);
    if !Contains(t, FormatCheck) || !Contains(t, LintCheck) {
      AppendedCiComplete(t, ruffOnly, pyver);
    } else if !ruffOnly && !Contains(t, BlackCheck) {
      AddBlackStepAdds(PatchInstall(t));
    } else if !ruffOnly && !Contains(t, BlackInstall) && Contains(t, RuffInstall) {
      ReplaceIntroduces(t, RuffInstall, RuffInstall + BlackDepStep, true);
      BlackStepsMarkers();
      ContainsRight(RuffInstall, BlackDepStep, BlackInstall);
      ContainsTrans(r.text, RuffInstall + BlackDepStep, BlackInstall);
    }
  }

  /**
   * When no install line is patched, the workflow only grows at its end: the
   * result starts with the original text minus trailing whitespace.
   */
  lemma StartsWithSeparated(a: string, b: string)
    ensures StartsWith(a + "\n\n" + b, a)
  {
    StartsWithAppend(a, "\n\n" + b);
    assert a + "\n\n" + b == a + ("\n\n" + b);
  }

  lemma CiAppendsOnly(t: string, ruffOnly: bool, pyver: string)
    requires ruffOnly || Contains(t, BlackInstall) || !Contains(t, RuffInstall)
    ensures StartsWith(CiMerge(Some(t), ruffOnly, pyver).text, RStrip(t))
  {
    if !Contains(t, FormatCheck) || !Contains(t, LintCheck) {
      var blackDep := if ruffOnly then "" else BlackDepStep;
      var blackStep := if ruffOnly then "" else BlackCheckStep;
      StartsWithSeparated(RStrip(t), CiTemplate(pyver, blackDep, blackStep));
    } else if !ruffOnly && !Contains(t, BlackCheck) {
      AddBlackStepAdds(t);
      StartsWithTrans(AddBlackStep(t), t, RStrip(t));
    }
  }

  /** With `ruff_only`, no Black step or install line is ever written. */
  lemma CiRuffOnly(cur: Option<string>, pyver: string)
    ensures var r := CiMerge(cur, true, pyver).text;
            match cur
            case None => r == CiTemplate(pyver, "", "")
            case Some(t) => r == t || r == RStrip(t) + "\n\n" + CiTemplate(pyver, "", "")
  {
  }

  /** A workflow whose install line also runs `ruff check`: `ruff format --check .\npip install ruff check .\n`. */
  const SplitCheckExample := FormatCheck + " .\n" + RuffInstall + " check .\n"

  /**
   * On `SplitCheckExample` the first run writes the Black install into the
   * middle of `ruff check`, and the second run no longer finds that check and
   * appends the whole job again.
   */
  lemma CiSplitCheckReappends(pyver: string)
    ensures var r := CiMerge(Some(SplitCheckExample), false, pyver);
            SplitsRuffCheck(SplitCheckExample) && r.changed && !Contains(r.text, LintCheck) &&
            CiMerge(Some(r.text), false, pyver).changed
  {
    SplitExampleChecks();
    SplitExampleInstalls();
    SplitExamplePatched();
    SplitExampleLosesCheck();
    var r := CiMerge(Some(SplitCheckExample), false, pyver);
    assert r == Merge(AddBlackStep(SplitExampleFirstText), true);
  }

  /** Both Ruff checks are in `SplitCheckExample`, one of them on its install line. */
  lemma SplitExampleChecks()
    ensures Contains(SplitCheckExample, FormatCheck) && Contains(SplitCheckExample, LintCheck)
    ensures SplitsRuffCheck(SplitCheckExample)
  {
    var a, b := FormatCheck + " .\n", " check .\n";
    var x := InstallPrefix + LintCheck;
    assert RuffInstall + " check" == x;
    assert SplitCheckExample == FormatCheck + (" .\n" + RuffInstall + b);
    ContainsSelf(FormatCheck);
    ContainsLeft(FormatCheck, " .\n" + RuffInstall + b, FormatCheck);
    assert SplitCheckExample == a + x + " .\n";
    ContainsMiddle(a, x, " .\n");
    ContainsEnd(InstallPrefix, LintCheck);
    ContainsTrans(SplitCheckExample, x, LintCheck);
  }

  /** `SplitCheckExample` installs Ruff, and Black is nowhere in it. */
  lemma SplitExampleInstalls()
    ensures Contains(SplitCheckExample, RuffInstall)
    ensures !Contains(SplitCheckExample, BlackInstall) && !Contains(SplitCheckExample, BlackCheck)
  {
    ContainsMiddle(FormatCheck + " .\n", RuffInstall, " check .\n");
    assert 'b' !in SplitCheckExample;
    MissingCharAbsent(SplitCheckExample, BlackInstall, 'b');
    MissingCharAbsent(SplitCheckExample, BlackCheck, 'b');
  }

  /** `SplitCheckExample` with its install line patched. */
  const SplitExampleFirstText := FormatCheck + " .\n" + (RuffInstall + BlackDepStep) + " check .\n"

  /** On `SplitCheckExample`, the install-line patch rewrites its one install line. */
  lemma SplitExamplePatched()
    ensures PatchInstall(SplitCheckExample) == SplitExampleFirstText
  {
    SplitExampleInstalls();
    SplitExampleReplaced();
  }

  /** The one install line of `SplitCheckExample` is the only place the patch applies. */
  lemma SplitExampleReplaced()
    ensures Replace(SplitCheckExample, RuffInstall, RuffInstall + BlackDepStep, false) == SplitExampleFirstText
  {
    var a, b := FormatCheck + " .\n", " check .\n";
    MissingCharAbsent(b, RuffInstall, 'p');
    FormatLineHasNoP();
    ReplaceSingle(a, RuffInstall, b, RuffInstall + BlackDepStep);
  }

  lemma FormatLineHasNoP()
    ensures 'p' !in FormatCheck + " .\n"
  {
  }

  /** After the first run on `SplitCheckExample`, `ruff check` occurs nowhere. */
  lemma SplitExampleLosesCheck()
    ensures !Contains(AddBlackStep(SplitExampleFirstText), LintCheck)
  {
    FirstTextLacksLint();
    BlackCheckStepHasNoF();
    AddBlackStepKeepsAbsent(SplitExampleFirstText, LintCheck, 'f');
  }

  /** The patched install line has cut `ruff check` in two. */
  lemma FirstTextLacksLint()
    ensures !Contains(SplitExampleFirstText, LintCheck)
    ensures SplitExampleFirstText != [] && SplitExampleFirstText[|SplitExampleFirstText| - 1] == '\n'
  {
    var q1, q2 := FormatCheck + " .\n", RuffInstall + "\n";
    var q3 := "        " + BlackInstall + " check .\n";
    assert SplitExampleFirstText == q1 + q2 + q3;
    InstallLineLacksLint();
    MissingCharAbsent(q3, LintCheck, 'f');
    JoinedAbsent(q1 + q2, q3, LintCheck);
    assert (q1 + q2 + q3)[|q1 + q2 + q3| - 1] == q3[|q3| - 1] == '\n';
  }

  /** Neither the format-check line nor the bare install line holds `ruff check`. */
  lemma InstallLineLacksLint()
    ensures !Contains(FormatCheck + " .\n" + (RuffInstall + "\n"), LintCheck)
  {
    FormatCheckLacksLint();
    AppendKeepsAbsent(FormatCheck, " .\n", LintCheck);
    MissingCharAbsent(RuffInstall + "\n", LintCheck, 'k');
    JoinedAbsent(FormatCheck + " .\n", RuffInstall + "\n", LintCheck);
  }

  /** `ruff check` is not part of `ruff format --check`. */
  lemma FormatCheckLacksLint()
    ensures !Contains(FormatCheck, LintCheck)
  {
    var p1, p2 := "ruff fo", "rmat --check";
    assert FormatCheck == p1 + p2;
    MissingCharAbsent(p1, LintCheck, 'k');
    MissingCharAbsent(p2, LintCheck, 'f');
    JoinedAbsent(p1, p2, LintCheck);
  }

  /** Adding the Black check step cannot create a string that needs a letter the step lacks. */
  lemma AddBlackStepKeepsAbsent(t: string, m: string, c: char)
    requires !Contains(t, m) && t != [] && t[|t| - 1] !in m
    requires c in m && c != '\n' && c !in BlackCheckStep
    ensures !Contains(AddBlackStep(t), m)
  {
    var tail := (if !EndsWith(t, "\n") then "\n" else "") + "\n" + BlackCheckStep;
    assert AddBlackStep(t) == t + tail;
    MissingCharAbsent(tail, m, c);
    JoinedAbsent(t, tail, m);
  }

  /** The Black install line and the indentation that puts `pip install ruff` back on its own line. */
  const BlackDepBefore := BlackInstall + "\n        "

  /** The Black install line is still due: the Ruff checks are there and Ruff is installed without Black. */
  predicate InstallPatchDue(t: string, ruffOnly: bool) {
    !ruffOnly && Contains(t, FormatCheck) && Contains(t, LintCheck) &&
    Contains(t, RuffInstall) && !Contains(t, BlackInstall)
  }

  /**
   * `ensure_ci` as evidently intended: when a Ruff check sits on the install
   * line, the Black install goes in front of `pip install ruff` instead of
   * after it, so that check stays whole. Every other workflow is merged
   * exactly as `CiMerge` does.
   */
  function CiMergeFixed(cur: Option<string>, ruffOnly: bool, pyver: string): (r: Merge)
    ensures cur.None? || !SplitsRuffCheck(cur.value) ==> r == CiMerge(cur, ruffOnly, pyver)
  {
    if cur.Some? && SplitsRuffCheck(cur.value) && InstallPatchDue(cur.value, ruffOnly) then
      var t := cur.value;
      var once := Contains(t, BlackCheck);
      var u := Replace(t, RuffInstall, BlackDepBefore + RuffInstall, once);
      Merge(if once then u else AddBlackStep(u), true)
    else CiMerge(cur, ruffOnly, pyver)
  }

  /** Inserting the Black install in front of the install lines keeps every check and brings Black. */
  lemma InstallBeforeEffect(t: string, once: bool)
    requires Contains(t, FormatCheck) && Contains(t, LintCheck) && Contains(t, RuffInstall)
    ensures var u := Replace(t, RuffInstall, BlackDepBefore + RuffInstall, once);
            Contains(u, FormatCheck) && Contains(u, LintCheck) && Contains(u, BlackInstall) &&
            (Contains(t, BlackCheck) ==> Contains(u, BlackCheck))
  {
    var u := Replace(t, RuffInstall, BlackDepBefore + RuffInstall, once);
    InstallBeforeKeeps(t, once, FormatCheck);
    InstallBeforeKeeps(t, once, LintCheck);
    if Contains(t, BlackCheck) {
      InstallBeforeKeeps(t, once, BlackCheck);
    }
    ReplaceIntroduces(t, RuffInstall, BlackDepBefore + RuffInstall, once);
    ContainsSelf(BlackInstall);
    ContainsLeft(BlackInstall, "\n        " + RuffInstall, BlackInstall);
    assert BlackInstall + ("\n        " + RuffInstall) == BlackDepBefore + RuffInstall;
    ContainsTrans(u, BlackDepBefore + RuffInstall, BlackInstall);
  }

  /** No check has a `p`, so none is cut by text inserted in front of `pip install ruff`. */
  lemma InstallBeforeKeeps(t: string, once: bool, m: string)
    requires m == FormatCheck || m == LintCheck || m == BlackCheck
    requires Contains(t, m)
    ensures Contains(Replace(t, RuffInstall, BlackDepBefore + RuffInstall, once), m)
  {
    InstallLineLetters(m);
    ReplaceBeforeKeeps(t, RuffInstall, BlackDepBefore, once, m);
  }

  /** Where no install line is patched, one run of `CiMerge` makes any workflow complete. */
  lemma CiUnpatchedComplete(t: string, ruffOnly: bool, pyver: string)
    requires !InstallPatchDue(t, ruffOnly)
    ensures CiComplete(CiMerge(Some(t), ruffOnly, pyver).text, ruffOnly)
  {
    if !Contains(t, FormatCheck) || !Contains(t, LintCheck) {
      AppendedCiComplete(t, ruffOnly, pyver);
    } else if !ruffOnly && !Contains(t, BlackCheck) {
      assert PatchInstall(t) == t;
      AddBlackStepKeeps(t, FormatCheck);
      AddBlackStepKeeps(t, LintCheck);
      AddBlackStepAdds(t);
      if Contains(t, BlackInstall) {
        AddBlackStepKeeps(t, BlackInstall);
      } else {
        AddBlackStepNoInstall(t);
      }
    }
  }

  /** One run of the corrected merge makes every workflow complete, with no assumption on its text. */
  lemma CiFixedEstablishes(cur: Option<string>, ruffOnly: bool, pyver: string)
    ensures CiComplete(CiMergeFixed(cur, ruffOnly, pyver).text, ruffOnly)
  {
    if cur.Some? && SplitsRuffCheck(cur.value) {
      var t := cur.value;
      if InstallPatchDue(t, ruffOnly) {
        var once := Contains(t, BlackCheck);
        var u := Replace(t, RuffInstall, BlackDepBefore + RuffInstall, once);
        InstallBeforeEffect(t, once);
        if !once {
          AddBlackStepKeeps(u, FormatCheck);
          AddBlackStepKeeps(u, LintCheck);
          AddBlackStepKeeps(u, BlackInstall);
          AddBlackStepAdds(u);
        }
      } else {
        CiUnpatchedComplete(t, ruffOnly, pyver);
      }
    } else {
      CiEstablishes(cur, ruffOnly, pyver);
    }
  }

  /** A second run of the corrected merge reports no change and leaves the text as it is. */
  lemma CiFixedIdempotent(cur: Option<string>, ruffOnly: bool, pyver: string)
    ensures var r := CiMergeFixed(cur, ruffOnly, pyver);
            CiMergeFixed(Some(r.text), ruffOnly, pyver) == Merge(r.text, false)
  {
    var r := CiMergeFixed(cur, ruffOnly, pyver);
    CiFixedEstablishes(cur, ruffOnly, pyver);
    assert !InstallPatchDue(r.text, ruffOnly);
    CiChangedIffIncomplete(r.text, ruffOnly, pyver);
  }

  /** The corrected merge reports an existing workflow changed exactly when its text changes. */
  lemma CiFixedChangedIffTextDiffers(t: string, ruffOnly: bool, pyver: string)
    ensures var r := CiMergeFixed(Some(t), ruffOnly, pyver);
            r.changed <==> r.text != t
  {
    if SplitsRuffCheck(t) && InstallPatchDue(t, ruffOnly) {
      var once := Contains(t, BlackCheck);
      var u := Replace(t, RuffInstall, BlackDepBefore + RuffInstall, once);
      InstallBeforeEffect(t, once);
      AddBlackStepKeeps(u, BlackInstall);
      var r := CiMergeFixed(Some(t), ruffOnly, pyver);
      assert r.text == if once then u else AddBlackStep(u);
      assert Contains(r.text, BlackInstall);
    } else {
      CiChangedIffTextDiffers(t, ruffOnly, pyver);
    }
  }

  // ================================================================ requirements-dev.txt

  const RuffWant := "ruff>=0.6.9"
  const PrecommitWant := "pre-commit>=3.0.0"
  const BlackWant := "black>=24.10.0"

  /** The development requirements a run wants, in the order they are written. */
  function Want(ruffOnly: bool): (ws: seq<string>)
    ensures |ws| == (if ruffOnly then 2 else 3)
    ensures ws[0] == RuffWant && ws[1] == PrecommitWant
    ensures !ruffOnly ==> ws[2] == BlackWant
  {
    [RuffWant, PrecommitWant] + (if ruffOnly then [] else [BlackWant])
  }

  /** Where the first `>` at or after `i` is, or the end. */
  function NameEnd(w: string, i: nat): (e: nat)
    requires i <= |w|
    ensures i <= e <= |w|
    ensures forall k :: i <= k < e ==> w[k] != '>'
    ensures e == |w| || w[e] == '>'
    decreases |w| - i
  {
    if i < |w| && w[i] != '>' then NameEnd(w, i + 1) else i
  }

  /** `w.split('>')[0]`: the distribution name in front of the first `>`. */
  function DistName(w: string): (n: string)
    ensures StartsWith(w, n) && '>' !in n
    ensures |n| < |w| ==> w[|n|] == '>'
  {
    w[..NameEnd(w, 0)]
  }

  /** `i` is where a line starts: the beginning of the text or just after a newline. */
  predicate AtLineStart(t: string, i: nat) {
    i == 0 || (i <= |t| && t[i - 1] == '\n')
  }

  /** `re.search(f"(?m)^{re.escape(name)}", t)`: some line of `t` starts with `name`. */
  predicate Listed(t: string, name: string) {
    exists i: nat :: i <= |t| && AtLineStart(t, i) && OccursAt(t, name, i)
  }

  /** `a` lists elements of `b` in the order `b` has them. */
  predicate Subsequence<T(==)>(a: seq<T>, b: seq<T>)
    decreases |b|
  {
    a == [] || (b != [] && (if a[0] == b[0] then Subsequence(a[1..], b[1..]) else Subsequence(a, b[1..])))
  }

  /** The wanted entries whose name starts no line of `t`, in wanted order. */
  function Missing(ws: seq<string>, t: string): (ms: seq<string>)
    ensures forall w :: w in ms <==> w in ws && !Listed(t, DistName(w))
    ensures Subsequence(ms, ws)
  {
    if ws == [] then []
    else if Listed(t, DistName(ws[0])) then Missing(ws[1..], t)
    else [ws[0]] + Missing(ws[1..], t)
  }

  /** The header goes in front unless the stripped text already starts with a comment. */
  function WithHeader(t: string): string {
    if !StartsWith(Strip(t), "#") then ReqDevHeader + t else t
  }

  /** The stripped text, then each entry on a line of its own, then a final newline. */
  function AppendEntries(h: string, entries: seq<string>): string {
    RStrip(h) + "\n" + Join(entries) + "\n"
  }

  /** `ensure_requirements_dev`: append the missing entries, with the header if the text has none. */
  function RequirementsMerge(cur: Option<string>, ruffOnly: bool): Merge {
    match cur
    case None => Merge(ReqDevHeader + Join(Want(ruffOnly)) + "\n", true)
    case Some(t) =>
      var missing := Missing(Want(ruffOnly), t);
      if missing == [] then Merge(t, false)
      else Merge(AppendEntries(WithHeader(t), missing), true)
  }

  /** Every wanted entry's name starts some line. */
  predicate RequirementsComplete(t: string, ruffOnly: bool) {
    forall w :: w in Want(ruffOnly) ==> Listed(t, DistName(w))
  }

  /** What a wanted entry is matched by: a name ending in a non-space; and it is a single line. */
  lemma WantEntry(w: string, ruffOnly: bool)
    requires w in Want(ruffOnly)
    ensures |DistName(w)| > 0 && !IsSpace(DistName(w)[|DistName(w)| - 1]) && '\n' !in w
  {
    assert w == RuffWant || w == PrecommitWant || w == BlackWant;
    WantNames(w);
    var n := DistName(w);
    assert n == "ruff" || n == "pre-commit" || n == "black";
    assert n[|n| - 1] == 'f' || n[|n| - 1] == 't' || n[|n| - 1] == 'k';
  }

  /** Entries are matched by `ruff`, `pre-commit` and `black`. */
  lemma WantNames(w: string)
    ensures w == RuffWant ==> DistName(w) == "ruff"
    ensures w == PrecommitWant ==> DistName(w) == "pre-commit"
    ensures w == BlackWant ==> DistName(w) == "black"
  {
    if w == RuffWant {
      DistNameIs(w, "ruff");
    } else if w == PrecommitWant {
      DistNameIs(w, "pre-commit");
    } else if w == BlackWant {
      DistNameIs(w, "black");
    }
  }

  /** The name in front of the first `>` is determined by where that `>` is. */
  lemma DistNameIs(w: string, n: string)
    requires StartsWith(w, n) && '>' !in n && |n| < |w| && w[|n|] == '>'
    ensures DistName(w) == n
  {
  }

  lemma RequirementsChangedIffIncomplete(t: string, ruffOnly: bool)
    ensures RequirementsMerge(Some(t), ruffOnly).changed <==> !RequirementsComplete(t, ruffOnly)
    ensures RequirementsComplete(t, ruffOnly) ==> RequirementsMerge(Some(t), ruffOnly).text == t
  {
    var ms := Missing(Want(ruffOnly), t);
    if ms != [] {
      assert ms[0] in ms;
    }
  }

  /** Text placed right after a newline (or at the very start) starts a line. */
  lemma ListedAt(a: string, w: string, b: string)
    requires a == [] || a[|a| - 1] == '\n'
    ensures Listed(a + w + b, w)
  {
    var t := a + w + b;
    assert t[|a|..|a| + |w|] == w;
    assert AtLineStart(t, |a|);
  }

  /** Each element of a joined list sits between a line start and the rest. */
  lemma {:induction false} JoinAround(ws: seq<string>, k: nat) returns (a: string, b: string)
    requires k < |ws|
    ensures Join(ws) == a + ws[k] + b
    ensures a == [] || a[|a| - 1] == '\n'
    decreases k
  {
    if k == 0 {
      a := [];
      b := if |ws| == 1 then [] else "\n" + Join(ws[1..]);
    } else {
      var a', b' := JoinAround(ws[1..], k - 1);
      a := ws[0] + "\n" + a';
      b := b';
    }
  }

  /** An entry of a joined list starts a line, whatever comes before a newline and after. */
  lemma ListedInJoin(pre: string, ws: seq<string>, post: string, w: string)
    requires w in ws && (pre == [] || pre[|pre| - 1] == '\n')
    ensures Listed(pre + Join(ws) + post, w)
  {
    var k :| 0 <= k < |ws| && ws[k] == w;
    var a, b := JoinAround(ws, k);
    ListedAt(a, w, b);
    ListedInContext(pre, Join(ws), post, w);
  }

  /** A line start stays one when text ending in a newline goes before and any text after. */
  lemma ListedInContext(pre: string, x: string, post: string, n: string)
    requires Listed(x, n) && (pre == [] || pre[|pre| - 1] == '\n')
    ensures Listed(pre + x + post, n)
  {
    var i: nat :| i <= |x| && AtLineStart(x, i) && OccursAt(x, n, i);
    var t := pre + x + post;
    assert t[|pre| + i..|pre| + i + |n|] == x[i..i + |n|];
    assert AtLineStart(t, |pre| + i);
  }

  /** A line starting with an entry also starts with the entry's name. */
  lemma ListedName(t: string, w: string)
    requires Listed(t, w)
    ensures Listed(t, DistName(w))
  {
    var i: nat :| i <= |t| && AtLineStart(t, i) && OccursAt(t, w, i);
    assert t[i..i + |DistName(w)|] == w[..|DistName(w)|];
  }

  /** Prepending text that ends in a newline keeps every line start. */
  lemma ListedAfterPrefix(x: string, t: string, n: string)
    requires Listed(t, n) && |x| > 0 && x[|x| - 1] == '\n'
    ensures Listed(x + t, n)
  {
    var i: nat :| i <= |t| && AtLineStart(t, i) && OccursAt(t, n, i);
    assert (x + t)[|x| + i..|x| + i + |n|] == t[i..i + |n|];
    assert AtLineStart(x + t, |x| + i);
  }

  /** Appending text keeps every line start. */
  lemma ListedBeforeSuffix(t: string, y: string, n: string)
    requires Listed(t, n)
    ensures Listed(t + y, n)
  {
    var i: nat :| i <= |t| && AtLineStart(t, i) && OccursAt(t, n, i);
    assert (t + y)[i..i + |n|] == t[i..i + |n|];
    assert AtLineStart(t + y, i);
  }

  /** Dropping trailing whitespace keeps a line start followed by a name ending in a non-space. */
  lemma ListedAfterRStrip(t: string, n: string)
    requires Listed(t, n) && |n| > 0 && !IsSpace(n[|n| - 1])
    ensures Listed(RStrip(t), n)
  {
    var i: nat :| i <= |t| && AtLineStart(t, i) && OccursAt(t, n, i);
    RStripKeepsAt(t, n, i);
    assert AtLineStart(RStrip(t), i);
  }

  /** A fresh file lists every wanted entry. */
  lemma FreshRequirementsComplete(ruffOnly: bool)
    ensures RequirementsComplete(RequirementsMerge(None, ruffOnly).text, ruffOnly)
  {
    forall w | w in Want(ruffOnly) ensures Listed(RequirementsMerge(None, ruffOnly).text, DistName(w)) {
      ListedInJoin(ReqDevHeader, Want(ruffOnly), "\n", w);
      ListedName(ReqDevHeader + Join(Want(ruffOnly)) + "\n", w);
    }
  }

  /** The appended entries start lines of the result. */
  lemma AppendEntriesLists(h: string, entries: seq<string>, w: string)
    requires w in entries
    ensures Listed(AppendEntries(h, entries), DistName(w))
  {
    ListedInJoin(RStrip(h) + "\n", entries, "\n", w);
    ListedName(AppendEntries(h, entries), w);
  }

  /** Names that started lines before still do. */
  lemma AppendEntriesKeeps(h: string, entries: seq<string>, n: string)
    requires Listed(h, n) && |n| > 0 && !IsSpace(n[|n| - 1])
    ensures Listed(AppendEntries(h, entries), n)
  {
    ListedAfterRStrip(h, n);
    ListedBeforeSuffix(RStrip(h), "\n" + Join(entries) + "\n", n);
    assert RStrip(h) + ("\n" + Join(entries) + "\n") == AppendEntries(h, entries);
  }

  /** The header keeps every line start. */
  lemma WithHeaderKeeps(t: string, n: string)
    requires Listed(t, n)
    ensures Listed(WithHeader(t), n)
  {
    if !StartsWith(Strip(t), "#") {
      ListedAfterPrefix(ReqDevHeader, t, n);
    }
  }

  /** After a run on an existing file, a wanted entry's name starts some line. */
  lemma ExistingRequirementsLists(t: string, ruffOnly: bool, w: string)
    requires w in Want(ruffOnly)
    ensures Listed(RequirementsMerge(Some(t), ruffOnly).text, DistName(w))
  {
    var ms := Missing(Want(ruffOnly), t);
    if ms != [] {
      if w in ms {
        AppendEntriesLists(WithHeader(t), ms, w);
      } else {
        WantEntry(w, ruffOnly);
        WithHeaderKeeps(t, DistName(w));
        AppendEntriesKeeps(WithHeader(t), ms, DistName(w));
      }
    }
  }

  /** Appending the missing entries lists every wanted entry. */
  lemma ExistingRequirementsComplete(t: string, ruffOnly: bool)
    ensures RequirementsComplete(RequirementsMerge(Some(t), ruffOnly).text, ruffOnly)
  {
    forall w | w in Want(ruffOnly) ensures Listed(RequirementsMerge(Some(t), ruffOnly).text, DistName(w)) {
      ExistingRequirementsLists(t, ruffOnly, w);
    }
  }

  lemma RequirementsEstablishes(cur: Option<string>, ruffOnly: bool)
    ensures RequirementsComplete(RequirementsMerge(cur, ruffOnly).text, ruffOnly)
  {
    if cur.None? {
      FreshRequirementsComplete(ruffOnly);
    } else {
      ExistingRequirementsComplete(cur.value, ruffOnly);
    }
  }

  /** A second run reports no change and leaves the text as it is. */
  lemma RequirementsIdempotent(cur: Option<string>, ruffOnly: bool)
    ensures var r := RequirementsMerge(cur, ruffOnly);
            RequirementsMerge(Some(r.text), ruffOnly) == Merge(r.text, false)
  {
    RequirementsEstablishes(cur, ruffOnly);
    RequirementsChangedIffIncomplete(RequirementsMerge(cur, ruffOnly).text, ruffOnly);
  }

  /** An existing file is reported changed exactly when its text changes. */
  lemma RequirementsChangedIffTextDiffers(t: string, ruffOnly: bool)
    ensures var r := RequirementsMerge(Some(t), ruffOnly);
            r.changed <==> r.text != t
  {
    var r := RequirementsMerge(Some(t), ruffOnly);
    var ms := Missing(Want(ruffOnly), t);
    if ms != [] {
      assert ms[0] in ms;
      ExistingRequirementsComplete(t, ruffOnly);
      assert Listed(r.text, DistName(ms[0]));
    }
  }

  /** Splitting appended entries gives the old lines, the entries, and the empty last piece. */
  lemma AppendEntriesLines(h: string, entries: seq<string>)
    requires entries != []
    requires forall i :: 0 <= i < |entries| ==> '\n' !in entries[i]
    ensures Lines(AppendEntries(h, entries)) == Lines(RStrip(h)) + entries + [""]
  {
    var ls := Lines(RStrip(h));
    JoinLines(RStrip(h));
    JoinAppend(entries, [""]);
    assert Join([""]) == "";
    JoinAppend(ls, entries + [""]);
    assert ls + entries + [""] == ls + (entries + [""]);
    assert Join(ls + entries + [""]) == AppendEntries(h, entries);
    LinesHaveNoNewline(RStrip(h));
    LinesJoin(ls + entries + [""]);
  }

  /**
   * The new file's lines are the old lines (headed if they were not), then each
   * missing entry on a line of its own in wanted order, then the final newline.
   */
  lemma RequirementsAppendsLines(t: string, ruffOnly: bool)
    requires Missing(Want(ruffOnly), t) != []
    ensures var ms := Missing(Want(ruffOnly), t);
            Lines(RequirementsMerge(Some(t), ruffOnly).text) == Lines(RStrip(WithHeader(t))) + ms + [""] &&
            Subsequence(ms, Want(ruffOnly))
  {
    var ms := Missing(Want(ruffOnly), t);
    forall i | 0 <= i < |ms| ensures '\n' !in ms[i] {
      WantEntry(ms[i], ruffOnly);
    }
    AppendEntriesLines(WithHeader(t), ms);
  }

  /** A fresh file is the header line, then one line per wanted entry in order. */
  lemma FreshRequirementsLines(ruffOnly: bool)
    ensures Lines(RequirementsMerge(None, ruffOnly).text) == [ReqDevTitle] + Want(ruffOnly) + [""]
  {
    var ws := Want(ruffOnly);
    JoinAppend(ws, [""]);
    assert Join([""]) == "";
    JoinAppend([ReqDevTitle], ws + [""]);
    assert Join([ReqDevTitle]) == ReqDevTitle;
    assert [ReqDevTitle] + ws + [""] == [ReqDevTitle] + (ws + [""]);
    assert Join([ReqDevTitle] + ws + [""]) == RequirementsMerge(None, ruffOnly).text;
    forall i | 0 <= i < |ws| ensures '\n' !in ws[i] {
      WantEntry(ws[i], ruffOnly);
    }
    LinesJoin([ReqDevTitle] + ws + [""]);
  }

  /** Whatever the header decision, the stripped old text survives in one piece. */
  lemma AppendEntriesKeepsText(t: string, entries: seq<string>)
    ensures Contains(AppendEntries(WithHeader(t), entries), RStrip(t))
    ensures StartsWith(Strip(t), "#") ==> StartsWith(AppendEntries(WithHeader(t), entries), RStrip(t))
  {
    if !StartsWith(Strip(t), "#") {
      assert WithHeader(t) == ReqDevHeader + t;
      HeadedEntriesKeepText(ReqDevHeader, t, entries);
    } else {
      assert WithHeader(t) == t;
      UnheadedKeepsText(t, entries);
    }
  }

  lemma HeadedEntriesKeepText(h: string, t: string, entries: seq<string>)
    ensures Contains(AppendEntries(h + t, entries), RStrip(t))
  {
    var tail := "\n" + Join(entries) + "\n";
    assert AppendEntries(h + t, entries) == RStrip(h + t) + tail;
    HeadedKeepsText(h, t, tail);
  }

  lemma UnheadedKeepsText(t: string, entries: seq<string>)
    ensures StartsWith(AppendEntries(t, entries), RStrip(t))
    ensures Contains(AppendEntries(t, entries), RStrip(t))
  {
    var tail := "\n" + Join(entries) + "\n";
    assert AppendEntries(t, entries) == RStrip(t) + tail;
    StartsWithAppend(RStrip(t), tail);
    ContainsAt(RStrip(t) + tail, RStrip(t), 0);
  }

  /** Whatever goes in front, the stripped text survives stripping the whole. */
  lemma HeadedKeepsText(h: string, t: string, tail: string)
    ensures Contains(RStrip(h + t) + tail, RStrip(t))
  {
    RStripKeepsTail(h, t);
    ContainsLeft(RStrip(h + t), tail, RStrip(t));
  }

  /** Without a leading comment, the result opens with the header line. */
  lemma AppendEntriesHeader(t: string, entries: seq<string>)
    requires !StartsWith(Strip(t), "#")
    ensures StartsWith(AppendEntries(WithHeader(t), entries), ReqDevTitle)
  {
    var h := ReqDevHeader + t;
    assert OccursAt(h, ReqDevTitle, 0);
    RStripKeepsAt(h, ReqDevTitle, 0);
    assert AppendEntries(h, entries)[..|ReqDevTitle|] == RStrip(h)[..|ReqDevTitle|];
  }

  /**
   * The header goes in front exactly when the stripped text does not start with
   * `#`; either way the old text, minus trailing whitespace, survives in one piece.
   */
  lemma RequirementsHeader(t: string, ruffOnly: bool)
    requires Missing(Want(ruffOnly), t) != []
    ensures var r := RequirementsMerge(Some(t), ruffOnly).text;
            (!StartsWith(Strip(t), "#") ==> StartsWith(r, ReqDevTitle)) &&
            (StartsWith(Strip(t), "#") ==> StartsWith(r, RStrip(t))) &&
            Contains(r, RStrip(t))
  {
    var ms := Missing(Want(ruffOnly), t);
    AppendEntriesKeepsText(t, ms);
    if !StartsWith(Strip(t), "#") {
      AppendEntriesHeader(t, ms);
    }
  }

  /**
   * Matching is by name at a line start, so a pinned or differently bounded
   * Ruff line (`ruff==0.5.0`) already counts as present.
   */
  lemma RequirementsNamePrefix(t: string, ruffOnly: bool)
    ensures RuffWant in Missing(Want(ruffOnly), t) <==> !Listed(t, "ruff")
  {
    WantNames(RuffWant);
  }
}
