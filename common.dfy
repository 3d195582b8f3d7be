/** Shared vocabulary of the model: bytes, optional values, the width of the
    C types the program uses, and a few sequence helpers. */
module Common {

  /** One octet of a file or of a process's memory. */
  newtype byte = x: int | 0 <= x < 256

  datatype Option<+T> = None | Some(value: T)

  /** `unsigned long` and `size_t` are 64 bits wide on the target platform. */
  const ULONG_MOD: int := 0x1_0000_0000_0000_0000
  const ULONG_MAX: int := ULONG_MOD - 1

  /** `off_t`, the type `lseek` takes, is a signed 64-bit integer. */
  const OFF_T_MAX: int := 0x7fff_ffff_ffff_ffff

  /** `unsigned int` is 32 bits wide. */
  const UINT_MOD: int := 0x1_0000_0000

  /** The text of a NUL-terminated character buffer: everything before the first NUL. */
  function CStr(p: seq<char>): (r: seq<char>)
    ensures |r| <= |p| && r == p[..|r|]
    ensures '\0' !in r
    ensures |r| < |p| ==> p[|r|] == '\0'
  {
    if p == [] || p[0] == '\0' then [] else [p[0]] + CStr(p[1..])
  }

  /** `pat` occurs in `s` starting at index `i`. */
  predicate OccursAt(s: seq<char>, pat: seq<char>, i: int)
  {
    0 <= i <= |s| - |pat| && s[i..i + |pat|] == pat
  }

  /** `strstr(s, pat) != NULL` on strings without NUL: `pat` occurs in `s`. */
  predicate Contains(s: seq<char>, pat: seq<char>)
  {
    exists i | 0 <= i <= |s| :: OccursAt(s, pat, i)
  }
}
