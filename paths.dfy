/** The string rules of the histogram viewer: the check applied to the file
    path before plotting, and the file-name suffix rule that sets the
    "This is C++ script!" check box after a file has been browsed for.
    Strings are compared exactly, character by character (no case folding). */
module PathRules {

  /** Why a path was refused; each reason has its own message box. */
  datatype PathError =
    | EmptyPath      // "path can not empty"
    | ForbiddenChar  // "file path have char"

  datatype PathCheck = Accepted | Rejected(error: PathError)

  /** The characters a path may not contain: a backslash, a double quote
      and a single quote. */
  predicate IsForbidden(c: char) {
    c == '\\' || c == '"' || c == '\''
  }

  /** The path check of the viewer: the empty test comes first, then the three
      single-character searches. */
  function ValidatePath(path: string): (r: PathCheck)
    ensures r.Accepted? <==> |path| > 0 && forall i | 0 <= i < |path| :: !IsForbidden(path[i])
    ensures r == Rejected(EmptyPath) <==> |path| == 0
    ensures r == Rejected(ForbiddenChar) <==> exists i | 0 <= i < |path| :: IsForbidden(path[i])
  {
    if |path| == 0 then Rejected(EmptyPath)
    else if '\\' in path || '"' in path || '\'' in path then Rejected(ForbiddenChar)
    else Accepted
  }

  /** Two non-empty pieces joined form an acceptable path exactly when both
      pieces are acceptable on their own. */
  lemma AcceptedConcat(a: string, b: string)
    requires |a| > 0 && |b| > 0
    ensures ValidatePath(a + b).Accepted? <==> ValidatePath(a).Accepted? && ValidatePath(b).Accepted?
  {
  }

  /** TString::EndsWith with exact comparison. */
  predicate EndsWith(s: string, suffix: string) {
    |suffix| <= |s| && s[|s| - |suffix|..] == suffix
  }

  /** EndsWith agrees with its reference reading: s is some string followed by the suffix. */
  lemma EndsWithIff(s: string, suffix: string)
    ensures EndsWith(s, suffix) <==> exists t: string :: t + suffix == s
  {
    if EndsWith(s, suffix) {
      var t := s[..|s| - |suffix|];
      assert t + suffix == s;
    }
    if exists t: string :: t + suffix == s {
      var t: string :| t + suffix == s;
      assert s[|s| - |suffix|..] == suffix by {
        assert |s| == |t| + |suffix|;
        forall k | 0 <= k < |suffix| ensures s[|s| - |suffix| + k] == suffix[k] {
          assert s[|t| + k] == (t + suffix)[|t| + k];
        }
      }
    }
  }

  /** The names the file dialog's first filter offers: C++ sources. */
  predicate IsScriptName(name: string) {
    EndsWith(name, ".C") || EndsWith(name, ".cpp") || EndsWith(name, ".cxx")
  }

  /** The names the file dialog's second filter offers: ROOT files. */
  predicate IsRootFileName(name: string) {
    EndsWith(name, ".root")
  }

  /** The check box state after a file has been chosen: on for a C++ source,
      off for a ROOT file, as it was for any other name. */
  function ScriptFlagAfter(name: string, flag: bool): (r: bool)
    ensures r != flag ==> IsScriptName(name) || IsRootFileName(name)
  {
    if IsScriptName(name) then true
    else if IsRootFileName(name) then false
    else flag
  }

  /** A string that ends with a non-empty suffix ends with the suffix's last character. */
  lemma EndsWithLastChar(s: string, suffix: string)
    requires |suffix| > 0
    ensures EndsWith(s, suffix) ==> s[|s| - 1] == suffix[|suffix| - 1]
  {
  }

  /** No name is both a C++ source and a ROOT file: the suffixes end in
      different letters. */
  lemma ScriptAndRootNamesDisjoint(name: string)
    ensures !(IsScriptName(name) && IsRootFileName(name))
  {
    EndsWithLastChar(name, ".C");
    EndsWithLastChar(name, ".cpp");
    EndsWithLastChar(name, ".cxx");
    EndsWithLastChar(name, ".root");
  }

  /** The three cases of the suffix rule, each stated on its own. */
  lemma ScriptFlagRule(name: string, flag: bool)
    ensures IsScriptName(name) ==> ScriptFlagAfter(name, flag)
    ensures IsRootFileName(name) ==> !ScriptFlagAfter(name, flag)
    ensures !IsScriptName(name) && !IsRootFileName(name) ==> ScriptFlagAfter(name, flag) == flag
  {
    ScriptAndRootNamesDisjoint(name);
  }

  /** Choosing the same file twice sets the box as choosing it once. */
  lemma ScriptFlagIdempotent(name: string, flag: bool)
    ensures ScriptFlagAfter(name, ScriptFlagAfter(name, flag)) == ScriptFlagAfter(name, flag)
  {
  }
}
