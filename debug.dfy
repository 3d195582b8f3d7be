/** The basename helper the diagnostic messages use to name source files. */
module Debug {
  import opened Common

  /** `k` is where the basename of the text `s` starts: nothing from `k`
      on is a '/', and the character before it, if any, is one. */
  predicate BaseStart(s: string, k: nat)
  {
    k <= |s| && '/' !in s[k..] && (0 < k ==> s[k - 1] == '/')
  }

  /** `file_name(path)`: walk the NUL-terminated text once, moving the
      result just past every '/' seen. The result is an index into `path`,
      as the C function returns a pointer into it; the basename is the text
      from there. */
  method FileName(path: string) returns (file: nat)
    ensures BaseStart(CStr(path), file)
    ensures '/' !in CStr(path) ==> file == 0
    ensures 0 < |CStr(path)| && CStr(path)[|CStr(path)| - 1] == '/' ==> file == |CStr(path)|
  {
    file := 0;
    var i := 0;
    while i < |path| && path[i] != '\0'
      invariant file <= i <= |path|
      invariant forall j :: 0 <= j < i ==> path[j] != '\0'
      invariant '/' !in path[file..i]
      invariant 0 < file ==> path[file - 1] == '/'
    {
      if path[i] == '/' {
        file := i + 1;
      } else {
        assert path[file..i + 1] == path[file..i] + [path[i]];
      }
      i := i + 1;
    }
    var text := CStr(path);
    assert |text| == i;
    assert text == path[..i];
    assert text[file..] == path[file..i];
    if '/' !in text && 0 < file {
      assert text[file - 1] == '/';
    }
  }

  /** There is only one such place: it is just after the last '/'. */
  lemma BaseStartUnique(s: string, k1: nat, k2: nat)
    requires BaseStart(s, k1) && BaseStart(s, k2)
    ensures k1 == k2
  {
  }
}
