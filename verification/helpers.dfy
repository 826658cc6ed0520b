/**
 * The small pure helpers around the merge engine: tool-name normalisation,
 * the name inferred from the project directory, the importable package
 * name, the advisory version check and the choice of command for a tool.
 * Lower-casing is ASCII lower-casing.
 */
module Helpers {
  import opened Text

  // ---------------------------------------------------------------- characters

  function LowerChar(c: char): char {
    if 'A' <= c <= 'Z' then (c as int + 32) as char else c
  }

  /** `str.lower()` on ASCII text: every character is lowered in place. */
  function Lower(s: string): (r: string)
    ensures |r| == |s|
    ensures forall i :: 0 <= i < |s| ==> r[i] == LowerChar(s[i])
  {
    if s == [] then [] else [LowerChar(s[0])] + Lower(s[1..])
  }

  /** `s.replace(a, b)` for one-character `a` and `b`: every `a` becomes `b`, nothing moves. */
  function Subst(s: string, a: char, b: char): (r: string)
    ensures |r| == |s|
    ensures forall i :: 0 <= i < |s| ==> r[i] == (if s[i] == a then b else s[i])
  {
    if s == [] then [] else [if s[0] == a then b else s[0]] + Subst(s[1..], a, b)
  }

  predicate IsLowerAlnum(c: char) {
    'a' <= c <= 'z' || '0' <= c <= '9'
  }

  /** The characters a tool name may hold: `[a-z0-9-]`. */
  predicate NameChar(c: char) {
    IsLowerAlnum(c) || c == '-'
  }

  predicate NoDoubleHyphen(s: string) {
    forall i :: 0 <= i < |s| - 1 ==> !(s[i] == '-' && s[i + 1] == '-')
  }

  /** A normalised tool name: non-empty, `[a-z0-9-]` only, no hyphen at either end, none doubled. */
  predicate ValidName(s: string) {
    |s| > 0
    && (forall i :: 0 <= i < |s| ==> NameChar(s[i]))
    && s[0] != '-' && s[|s| - 1] != '-'
    && NoDoubleHyphen(s)
  }

  // ---------------------------------------------------------------- validate_name steps

  /** `re.sub(r"[^a-z0-9-]", "", s)`: the name characters of `s`, in order. */
  function KeepNameChars(s: string): (r: string)
    ensures |r| <= |s|
    ensures forall i :: 0 <= i < |r| ==> NameChar(r[i])
    ensures (forall i :: 0 <= i < |s| ==> NameChar(s[i])) ==> r == s
    ensures (forall i :: 0 <= i < |s| ==> !IsLowerAlnum(s[i])) ==> forall i :: 0 <= i < |r| ==> r[i] == '-'
    ensures |s| == 1 && !NameChar(s[0]) ==> r == []
  {
    if s == [] then []
    else if NameChar(s[0]) then [s[0]] + KeepNameChars(s[1..])
    else KeepNameChars(s[1..])
  }

  /** `re.sub(r"-+", "-", s)`: every run of hyphens shrinks to one hyphen. */
  function CollapseHyphens(s: string): (r: string)
    ensures |r| <= |s|
    ensures NoDoubleHyphen(r)
    ensures s != [] ==> r != [] && r[0] == s[0]
    ensures forall i :: 0 <= i < |r| ==> r[i] in s
    ensures NoDoubleHyphen(s) ==> r == s
  {
    if |s| < 2 then s
    else if s[0] == '-' && s[1] == '-' then CollapseHyphens(s[1..])
    else [s[0]] + CollapseHyphens(s[1..])
  }

  function DropLeadingHyphens(s: string): (r: string)
    ensures |r| <= |s| && r == s[|s| - |r|..]
    ensures forall k :: 0 <= k < |s| - |r| ==> s[k] == '-'
    ensures r == [] || r[0] != '-'
    ensures (s == [] || s[0] != '-') ==> r == s
  {
    if s != [] && s[0] == '-' then DropLeadingHyphens(s[1..]) else s
  }

  function DropTrailingHyphens(s: string): (r: string)
    ensures |r| <= |s| && r == s[..|r|]
    ensures forall k :: |r| <= k < |s| ==> s[k] == '-'
    ensures r == [] || r[|r| - 1] != '-'
    ensures (s == [] || s[|s| - 1] != '-') ==> r == s
  {
    if s != [] && s[|s| - 1] == '-' then DropTrailingHyphens(s[..|s| - 1]) else s
  }

  /** `s.strip("-")`: the slice of `s` left once hyphens are removed from both ends. */
  function StripHyphens(s: string): (r: string)
    ensures r == [] || (r[0] != '-' && r[|r| - 1] != '-')
    ensures exists i, j :: 0 <= i <= j <= |s| && r == s[i..j] &&
              (forall k :: 0 <= k < i ==> s[k] == '-') && (forall k :: j <= k < |s| ==> s[k] == '-')
    ensures (s == [] || (s[0] != '-' && s[|s| - 1] != '-')) ==> r == s
  {
    var t := DropTrailingHyphens(s);
    var r := DropLeadingHyphens(t);
    assert r == s[|t| - |r|..|t|];
    assert forall k :: 0 <= k < |t| - |r| ==> s[k] == t[k];
    r
  }

  /** The characters `validate_name` turns into hyphens, after lower-casing. */
  function Hyphenate(s: string): string {
    Subst(Subst(Lower(s), '_', '-'), ' ', '-')
  }

  /** `validate_name`: normalise a tool name, falling back to `my-tool` when nothing is left. */
  function ValidateName(name: string): (r: string)
    ensures ValidName(r)
  {
    var n := StripHyphens(CollapseHyphens(KeepNameChars(Hyphenate(name))));
    SliceKeepsNameShape(CollapseHyphens(KeepNameChars(Hyphenate(name))), n);
    if n == [] then DefaultNameValid(); "my-tool" else n
  }

  /** Collapsing works run by run: a doubled hyphen anywhere collapses like a single one. */
  lemma {:induction false} CollapseHyphensDouble(a: string, b: string)
    ensures CollapseHyphens(a + "--" + b) == CollapseHyphens(a + "-" + b)
  {
    if a == [] {
      assert (a + "--" + b)[1..] == a + "-" + b;
    } else {
      var s, t := a + "--" + b, a + "-" + b;
      assert s[0] == t[0] && s[1] == t[1];
      assert s[1..] == a[1..] + "--" + b && t[1..] == a[1..] + "-" + b;
      CollapseHyphensDouble(a[1..], b);
    }
  }

  lemma DefaultNameValid()
    ensures ValidName("my-tool")
  {
  }

  lemma SliceKeepsNameShape(s: string, r: string)
    requires NoDoubleHyphen(s)
    requires exists i, j :: 0 <= i <= j <= |s| && r == s[i..j]
    ensures NoDoubleHyphen(r)
    ensures forall k :: 0 <= k < |r| ==> r[k] in s
  {
    var i, j :| 0 <= i <= j <= |s| && r == s[i..j];
    forall k | 0 <= k < |r| - 1 ensures !(r[k] == '-' && r[k + 1] == '-') {
      assert r[k] == s[i + k] && r[k + 1] == s[i + k + 1];
    }
    forall k | 0 <= k < |r| ensures r[k] in s {
      assert r[k] == s[i + k];
    }
  }

  /** A name that is already normalised comes back unchanged. */
  lemma {:induction false} ValidNameIsFixed(s: string)
    requires ValidName(s)
    ensures ValidateName(s) == s
  {
    var h := Hyphenate(s);
    assert h == s by {
      forall i | 0 <= i < |s| ensures h[i] == s[i] {
        assert NameChar(s[i]);
      }
    }
    assert KeepNameChars(h) == s;
    assert CollapseHyphens(s) == s;
    assert StripHyphens(s) == s;
  }

  /** `validate_name` is idempotent. */
  lemma ValidateNameIdempotent(s: string)
    ensures ValidateName(ValidateName(s)) == ValidateName(s)
  {
    ValidNameIsFixed(ValidateName(s));
  }

  /** Text without a single letter or digit normalises to the default name. */
  lemma {:induction false} ValidateNameFallback(s: string)
    requires forall i :: 0 <= i < |s| ==> !IsLowerAlnum(LowerChar(s[i]))
    ensures ValidateName(s) == "my-tool"
  {
    var h := Hyphenate(s);
    forall i | 0 <= i < |h| ensures !IsLowerAlnum(h[i]) {
      assert !IsLowerAlnum(LowerChar(s[i]));
    }
    var k := KeepNameChars(h);
    var c := CollapseHyphens(k);
    assert forall i :: 0 <= i < |c| ==> c[i] == '-' by {
      forall i | 0 <= i < |c| ensures c[i] == '-' {
        assert c[i] in k;
      }
    }
  }

  /** `"My Tool_Name!!"` normalises to `"my-tool-name"`. */
  lemma ValidateNameExample(s: string)
    requires s == "My Tool_Name!!"
    ensures ValidateName(s) == "my-tool-name"
  {
    var w := "my-tool-name";
    HyphenateExample(s, w);
    KeepNameCharsExample(w, Hyphenate(s));
    CollapseStripExample(w);
  }

  lemma HyphenateExample(s: string, w: string)
    requires s == "My Tool_Name!!" && w == "my-tool-name"
    ensures Hyphenate(s) == w + "!!"
  {
    assert s[0] == 'M' && s[1] == 'y' && s[2] == ' ' && s[3] == 'T' && s[4] == 'o' && s[5] == 'o' && s[6] == 'l';
    assert s[7] == '_' && s[8] == 'N' && s[9] == 'a' && s[10] == 'm' && s[11] == 'e' && s[12] == '!' && s[13] == '!';
  }

  lemma KeepNameCharsExample(w: string, h: string)
    requires w == "my-tool-name" && h == w + "!!"
    ensures KeepNameChars(h) == w
  {
    KeepNameCharsAppend(w, "!!");
    assert forall i :: 0 <= i < |w| ==> NameChar(w[i]);
    var bang := "!!";
    assert KeepNameChars(bang) == KeepNameChars(bang[1..]);
  }

  lemma CollapseStripExample(w: string)
    requires w == "my-tool-name"
    ensures StripHyphens(CollapseHyphens(w)) == w
  {
    assert NoDoubleHyphen(w);
    assert w[0] != '-' && w[11] != '-';
  }

  lemma {:induction false} KeepNameCharsAppend(a: string, b: string)
    ensures KeepNameChars(a + b) == KeepNameChars(a) + KeepNameChars(b)
  {
    if a == [] {
      assert a + b == b;
    } else {
      assert (a + b)[1..] == a[1..] + b;
      KeepNameCharsAppend(a[1..], b);
    }
  }

  // ---------------------------------------------------------------- other names

  /** `infer_name_from_directory`: lower-case the directory name and turn spaces and underscores into hyphens. */
  function InferNameFromDirectory(dirName: string): (r: string)
    ensures |r| == |dirName|
    ensures forall i :: 0 <= i < |r| ==> r[i] != ' ' && r[i] != '_' && !('A' <= r[i] <= 'Z')
    ensures forall i :: 0 <= i < |r| && dirName[i] != ' ' && dirName[i] != '_' ==> r[i] == LowerChar(dirName[i])
    ensures forall i :: 0 <= i < |r| && (dirName[i] == ' ' || dirName[i] == '_') ==> r[i] == '-'
  {
    Subst(Subst(Lower(dirName), ' ', '-'), '_', '-')
  }

  /** Validating the inferred name gives the same name as validating the directory name itself. */
  lemma {:induction false} ValidateInferredName(dirName: string)
    ensures ValidateName(InferNameFromDirectory(dirName)) == ValidateName(dirName)
  {
    var a := Hyphenate(InferNameFromDirectory(dirName));
    var b := Hyphenate(dirName);
    assert a == b by {
      forall i | 0 <= i < |a| ensures a[i] == b[i] {
      }
    }
  }

  /** The importable package name: every hyphen becomes an underscore. */
  function PackageName(name: string): (r: string)
    ensures |r| == |name|
    ensures forall i :: 0 <= i < |r| ==> r[i] != '-'
    ensures forall i :: 0 <= i < |r| && name[i] != '-' ==> r[i] == name[i]
    ensures forall i :: 0 <= i < |r| && name[i] == '-' ==> r[i] == '_'
  {
    Subst(name, '-', '_')
  }

  /** The package name of a normalised tool name is a Python identifier fragment: `[a-z0-9_]` only. */
  lemma PackageNameOfValidName(name: string)
    requires ValidName(name)
    ensures forall i :: 0 <= i < |PackageName(name)| ==> IsLowerAlnum(PackageName(name)[i]) || PackageName(name)[i] == '_'
  {
  }

  // ---------------------------------------------------------------- version

  predicate IsDigit(c: char) {
    '0' <= c <= '9'
  }

  /** Length of the run of digits at the start of `s`. */
  function DigitRun(s: string): (n: nat)
    ensures n <= |s|
    ensures forall i :: 0 <= i < n ==> IsDigit(s[i])
    ensures n < |s| ==> !IsDigit(s[n])
  {
    if s != [] && IsDigit(s[0]) then 1 + DigitRun(s[1..]) else 0
  }

  /** `re.match(r"^\d+\.\d+\.\d+", v)`: the text starts with three dot-separated digit runs. */
  predicate LooksLikeSemver(v: string) {
    var a := DigitRun(v);
    a > 0 && a < |v| && v[a] == '.' &&
    var w := v[a + 1..];
    var b := DigitRun(w);
    b > 0 && b < |w| && w[b] == '.' &&
    DigitRun(w[b + 1..]) > 0
  }

  /** `validate_version`: the format check is advisory, so the version is kept whether it matches or not. */
  function ValidateVersion(version: string): (r: string)
    ensures r == version
  {
    if LooksLikeSemver(version) then version else version
  }

  // ---------------------------------------------------------------- tool command

  /** An interpreter path, split into its directory and file name. */
  datatype Interpreter = Interpreter(dir: string, exe: string)
  {
    function Path(): string { dir + "/" + exe }
  }

  /**
   * `get_tool_command` on POSIX: the tool next to the environment's interpreter when
   * that file exists, else `python -m` with the module name, else the bare tool name
   * looked up on the search path. `toolExists` is the file-existence fact.
   */
  function ToolCommand(venvPython: Option<Interpreter>, tool: string, toolExists: bool): (cmd: seq<string>)
    ensures venvPython.None? ==> cmd == [tool]
    ensures venvPython.Some? && toolExists ==> cmd == [venvPython.value.dir + "/" + tool]
    ensures venvPython.Some? && !toolExists ==>
      |cmd| == 3 && cmd[0] == venvPython.value.Path() && cmd[1] == "-m" &&
      |cmd[2]| == |tool| && (forall i :: 0 <= i < |tool| ==> cmd[2][i] != '-') &&
      (forall i :: 0 <= i < |tool| && tool[i] != '-' ==> cmd[2][i] == tool[i]) &&
      (forall i :: 0 <= i < |tool| && tool[i] == '-' ==> cmd[2][i] == '_')
  {
    match venvPython
    case None => [tool]
    case Some(py) =>
      if toolExists then [py.dir + "/" + tool]
      else [py.Path(), "-m", Subst(tool, '-', '_')]
  }
}
