/**
 * The command-line helpers of the regex-based front end: the flag lookup
 * used to read `--path`/`--folder` values out of the argument list, and the
 * checks `updateFile` makes on the path before it hands the file on.
 */
module Helper {
  import opened Wrappers
  import opened Strings

  /** `val === setToMatch[0] || val === setToMatch[1]`; a missing entry matches nothing. */
  predicate IsFlag(val: string, setToMatch: seq<string>) {
    (|setToMatch| > 0 && val == setToMatch[0]) || (|setToMatch| > 1 && val == setToMatch[1])
  }

  /** `s.indexOf(v)`: the first index holding `v`, or -1. */
  function IndexOf(s: seq<string>, v: string): (k: int)
    ensures -1 <= k < |s|
    ensures k == -1 <==> forall i :: 0 <= i < |s| ==> s[i] != v
    ensures 0 <= k ==> s[k] == v && forall i :: 0 <= i < k ==> s[i] != v
  {
    if s == [] then -1
    else if s[0] == v then 0
    else
      var k := IndexOf(s[1..], v);
      if k == -1 then -1 else k + 1
  }

  /** Index of the last flag among `s`, or -1. */
  function LastFlag(s: seq<string>, setToMatch: seq<string>): (k: int)
    ensures -1 <= k < |s|
    ensures k == -1 <==> forall i :: 0 <= i < |s| ==> !IsFlag(s[i], setToMatch)
    ensures 0 <= k ==> IsFlag(s[k], setToMatch) && forall i :: k < i < |s| ==> !IsFlag(s[i], setToMatch)
  {
    if s == [] then -1
    else if IsFlag(s[|s| - 1], setToMatch) then |s| - 1
    else LastFlag(s[..|s| - 1], setToMatch)
  }

  /**
   * The lookup's `index` once the callback has seen the first `n` elements:
   * one past the first occurrence of the last flag spelling seen, or 0.
   */
  function IndexAfter(s: seq<string>, setToMatch: seq<string>, n: nat): nat
    requires n <= |s|
  {
    var j := LastFlag(s[..n], setToMatch);
    if j == -1 then 0 else IndexOf(s, s[j]) + 1
  }

  /** What the lookup returns; `None` stands for an argument that is not an array. */
  function MatchValue(givenValue: Option<seq<string>>, setToMatch: seq<string>): string
  {
    match givenValue
    case None => ""
    case Some(s) =>
      var index := IndexAfter(s, setToMatch, |s|);
      if index != 0 && index < |s| then s[index] else ""
  }

  /** `findMatch`: the value following a flag in the argument list, or `''`. */
  method FindMatch(givenValue: Option<seq<string>>, setToMatch: seq<string>) returns (r: string)
    ensures r == MatchValue(givenValue, setToMatch)
  {
    if givenValue.None? {
      return "";
    }
    var s := givenValue.value;
    var index := 0;
    for i := 0 to |s|
      invariant index == IndexAfter(s, setToMatch, i)
    {
      assert s[..i + 1][..i] == s[..i];
      var val := s[i];
      if IsFlag(val, setToMatch) {
        index := IndexOf(s, val) + 1;
      }
    }
    assert s[..|s|] == s;
    if index != 0 && index < |s| {
      r := s[index];
    } else {
      r := "";
    }
  }

  /** No flag in the list: nothing is found. */
  lemma FindMatchNoFlag(s: seq<string>, setToMatch: seq<string>)
    requires forall i :: 0 <= i < |s| ==> !IsFlag(s[i], setToMatch)
    ensures MatchValue(Some(s), setToMatch) == ""
  {
    assert s[..|s|] == s;
  }

  /**
   * A flag that is the last flag of the list and whose spelling does not occur
   * earlier yields the element right after it, or `''` when it is the final
   * element.
   */
  lemma FindMatchAfterFlag(s: seq<string>, setToMatch: seq<string>, j: nat)
    requires j < |s| && IsFlag(s[j], setToMatch)
    requires forall i :: j < i < |s| ==> !IsFlag(s[i], setToMatch)
    requires forall i :: 0 <= i < j ==> s[i] != s[j]
    ensures MatchValue(Some(s), setToMatch) == if j + 1 < |s| then s[j + 1] else ""
  {
    assert s[..|s|] == s;
    assert LastFlag(s, setToMatch) == j;
  }

  /** Whatever is found is `''` or an element of the list that directly follows a flag. */
  lemma FindMatchResult(givenValue: Option<seq<string>>, setToMatch: seq<string>)
    ensures var r := MatchValue(givenValue, setToMatch);
            r == "" || (givenValue.Some? && exists i :: 1 <= i < |givenValue.value| && r == givenValue.value[i]
                                                   && IsFlag(givenValue.value[i - 1], setToMatch))
  {
    if givenValue.Some? {
      var s := givenValue.value;
      assert s[..|s|] == s;
      var j := LastFlag(s, setToMatch);
      if j != -1 {
        var k := IndexOf(s, s[j]);
        assert IsFlag(s[k], setToMatch);
        if k + 1 < |s| {
          assert s[k + 1] == MatchValue(givenValue, setToMatch);
        }
      }
    }
  }

  /**
   * With `-P` given twice, `indexOf` finds the first `-P`, so the earlier
   * value wins over both the later `-P` and the `--path` between them.
   */
  lemma FindMatchUsesFirstOccurrence()
    ensures MatchValue(Some(["-P", "a.js", "--path", "b.js", "-P", "c.js"]), ["--path", "-P"]) == "a.js"
  {
    var s := ["-P", "a.js", "--path", "b.js", "-P", "c.js"];
    assert s[..|s|] == s;
    assert IsFlag(s[4], ["--path", "-P"]) && !IsFlag(s[5], ["--path", "-P"]);
    assert LastFlag(s, ["--path", "-P"]) == 4;
    assert IndexOf(s, "-P") == 0;
  }

  /** Where a path given on the command line leads. */
  datatype FileTarget = NoPath | Skipped | NotFound | Target(path: string)

  /** `\S+<ext>$` for an extension `ext` that starts with the dot. */
  predicate EndsWithExtension(p: string, ext: string) {
    |ext| < |p| && EndsWith(p, ext) && !IsWhitespace(p[|p| - |ext| - 1])
  }

  /** `\S+\.jsx?$` */
  predicate IsJsPath(p: string) {
    EndsWithExtension(p, ".js") || EndsWithExtension(p, ".jsx")
  }

  /** The first `path + ext` that exists, trying the extensions in order. */
  function FirstExisting(path: string, exts: seq<string>, fileExists: string -> bool): FileTarget
  {
    if exts == [] then NotFound
    else if fileExists(path + exts[0]) then Target(path + exts[0])
    else FirstExisting(path, exts[1..], fileExists)
  }

  /** The probe chooses the first extension whose file exists, and reports `NotFound` when none does. */
  lemma {:induction false} FirstExistingChoice(path: string, exts: seq<string>, fileExists: string -> bool)
    ensures FirstExisting(path, exts, fileExists) == NotFound <==> forall i :: 0 <= i < |exts| ==> !fileExists(path + exts[i])
    ensures FirstExisting(path, exts, fileExists).Target? ==>
              exists i :: 0 <= i < |exts| && FirstExisting(path, exts, fileExists) == Target(path + exts[i])
                          && fileExists(path + exts[i]) && forall j :: 0 <= j < i ==> !fileExists(path + exts[j])
    ensures FirstExisting(path, exts, fileExists).NotFound? || FirstExisting(path, exts, fileExists).Target?
  {
    if exts != [] && !fileExists(path + exts[0]) {
      FirstExistingChoice(path, exts[1..], fileExists);
      var t := FirstExisting(path, exts[1..], fileExists);
      if t.Target? {
        var i :| 0 <= i < |exts[1..]| && t == Target(path + exts[1..][i]) && fileExists(path + exts[1..][i])
                 && forall j :: 0 <= j < i ==> !fileExists(path + exts[1..][j]);
        assert exts[i + 1] == exts[1..][i];
        assert forall j :: 0 < j < i + 1 ==> exts[j] == exts[1..][j - 1];
      }
      if t == NotFound {
        assert forall i :: 1 <= i < |exts| ==> exts[i] == exts[1..][i - 1];
      }
    }
  }

  /**
   * The checks at the top of `updateFile`: an empty path is rejected, a path
   * with a dot must end in `.js`/`.jsx`, and a path without one is tried with
   * `.js` and then `.jsx`. `fileExists` stands for the `stat` probe.
   */
  method UpdateFileTarget(fileAndPath: string, fileExists: string -> bool) returns (t: FileTarget)
    ensures fileAndPath == "" ==> t == NoPath
    ensures fileAndPath != "" && '.' in fileAndPath ==> t == if IsJsPath(fileAndPath) then Target(fileAndPath) else Skipped
    ensures fileAndPath != "" && '.' !in fileAndPath ==> t == FirstExisting(fileAndPath, [".js", ".jsx"], fileExists)
  {
    if fileAndPath == "" {
      return NoPath;
    }
    var targetPath := fileAndPath;
    if '.' in targetPath {
      if !IsJsPath(targetPath) {
        return Skipped;
      }
    } else {
      if fileExists(targetPath + ".js") {
        targetPath := targetPath + ".js";
      } else if fileExists(targetPath + ".jsx") {
        targetPath := targetPath + ".jsx";
      } else {
        assert [".js", ".jsx"][1..] == [".jsx"] && [".jsx"][1..] == [];
        assert FirstExisting(fileAndPath, [".jsx"], fileExists) == FirstExisting(fileAndPath, [], fileExists);
        return NotFound;
      }
    }
    return Target(targetPath);
  }

  /** Every file the check lets through is named `*.js` or `*.jsx`. */
  lemma UpdateFileTargetExtension(fileAndPath: string, fileExists: string -> bool, t: FileTarget)
    requires fileAndPath != ""
    requires '.' in fileAndPath ==> t == if IsJsPath(fileAndPath) then Target(fileAndPath) else Skipped
    requires '.' !in fileAndPath ==> t == FirstExisting(fileAndPath, [".js", ".jsx"], fileExists)
    ensures t.Target? ==> EndsWith(t.path, ".js") || EndsWith(t.path, ".jsx")
    ensures t.NotFound? ==> '.' !in fileAndPath && !fileExists(fileAndPath + ".js") && !fileExists(fileAndPath + ".jsx")
  {
    if '.' !in fileAndPath {
      FirstExistingChoice(fileAndPath, [".js", ".jsx"], fileExists);
      if t.Target? {
        EndsWithPrepend(fileAndPath, ".js");
        EndsWithPrepend(fileAndPath, ".jsx");
      }
      if t.NotFound? {
        assert [".js", ".jsx"][0] == ".js" && [".js", ".jsx"][1] == ".jsx";
      }
    }
  }
}
