/** The memory-region record and the unsigned-integer parser shared by the
    maps parser and the task lister (include/maps_parser.hpp). */
module Maps {
  import opened Common

  /** `unsigned long` and `unsigned int` values. */
  type ulong = x: int | 0 <= x < ULONG_MOD
  type uint = x: int | 0 <= x < UINT_MOD

  /** `PATH_MAX`, the capacity of the record's pathname buffer. */
  const PATH_MAX: nat := 4096
  type PathBuf = s: seq<char> | |s| <= PATH_MAX

  /** The protection word of a region (an `unsigned int` of `PROT_*` bits
      from sys/mman.h). Only the three bits below are ever set, so the word
      is held as those three bits. */
  datatype Prot = Prot(read: bool, write: bool, exec: bool)

  /** The sharing word of a region (`MAP_*` bits from sys/mman.h), held as
      its two bits. */
  datatype Flags = Flags(mapPrivate: bool, mapShared: bool)

  /** `PROT_READ` = 1, `PROT_WRITE` = 2, `PROT_EXEC` = 4. */
  function ProtWord(p: Prot): (w: uint)
    ensures w < 8
    ensures (w % 2 == 1) == p.read && ((w / 2) % 2 == 1) == p.write && (w / 4 == 1) == p.exec
  {
    (if p.read then 1 else 0) + (if p.write then 2 else 0) + (if p.exec then 4 else 0)
  }

  /** `MAP_SHARED` = 1, `MAP_PRIVATE` = 2. */
  function FlagsWord(f: Flags): (w: uint)
    ensures w < 4
    ensures (w % 2 == 1) == f.mapShared && (w / 2 == 1) == f.mapPrivate
  {
    (if f.mapShared then 1 else 0) + (if f.mapPrivate then 2 else 0)
  }

  /** One line of /proc/<pid>/maps. The pathname holds the characters copied
      into the fixed buffer; the rest of the buffer stays zero. */
  datatype MemoryMap = MemoryMap(
    start: ulong,
    end: ulong,
    prot: Prot,
    flags: Flags,
    offset: ulong,
    devMajor: uint,
    devMinor: uint,
    inode: ulong,
    pathname: PathBuf)

  /** The value-initialised record `memory_map map_entry = {}`. */
  const Zero: MemoryMap := MemoryMap(0, 0, Prot(false, false, false), Flags(false, false), 0, 0, 0, 0, [])

  /** `memory_map::size()`: `end - start` as an unsigned 64-bit subtraction,
      so the distance that, added to the start, wraps around to the end. */
  function Size(m: MemoryMap): (r: ulong)
    ensures (m.start + r) % ULONG_MOD == m.end
    ensures m.start <= m.end ==> r == m.end - m.start
    ensures m.end < m.start ==> r > ULONG_MAX - m.start
  {
    (m.end - m.start) % ULONG_MOD
  }

  // ---------------------------------------------------------------------
  // std::from_chars for an unsigned type

  /** The digit value `from_chars` gives a character in any base up to 36:
      0-9 for decimal digits, 10-35 for letters of either case, -1 otherwise. */
  function DigitValue(c: char): (d: int)
    ensures -1 <= d < 36
    ensures d >= 0 <==> ('0' <= c <= '9' || 'a' <= c <= 'z' || 'A' <= c <= 'Z')
  {
    if '0' <= c <= '9' then c as int - '0' as int
    else if 'a' <= c <= 'z' then c as int - 'a' as int + 10
    else if 'A' <= c <= 'Z' then c as int - 'A' as int + 10
    else -1
  }

  predicate IsDigit(c: char, base: nat)
  {
    0 <= DigitValue(c) < base
  }

  predicate AllDigits(s: seq<char>, base: nat)
  {
    forall i :: 0 <= i < |s| ==> IsDigit(s[i], base)
  }

  /** The value of a digit string, read most significant digit first. */
  function Value(s: seq<char>, base: nat): nat
    requires AllDigits(s, base)
  {
    if s == [] then 0 else Value(s[..|s| - 1], base) * base + DigitValue(s[|s| - 1])
  }

  /** The length of the longest prefix of `s` made of digits of `base`. */
  function DigitRun(s: seq<char>, base: nat): (n: nat)
    ensures n <= |s| && AllDigits(s[..n], base)
    ensures n < |s| ==> !IsDigit(s[n], base)
  {
    if s == [] || !IsDigit(s[0], base) then 0
    else
      var n := 1 + DigitRun(s[1..], base);
      assert s[..n] == [s[0]] + s[1..][..n - 1];
      n
  }

  datatype Errc = NoError | InvalidArgument | ResultOutOfRange

  /** What `from_chars` reports: where it stopped, its error code, and the
      value it stored (the output variable keeps its prior 0 on error). */
  datatype FromCharsResult = FromCharsResult(ptr: nat, ec: Errc, value: ulong)

  /** `std::from_chars(first, last, value, base)` into an `unsigned long`
      that holds 0: no sign, no "0x" prefix and no leading white space are
      accepted. It reads digits from the left, accumulating their value,
      and stops at the first character that is not a digit of `base`. */
  function FromChars(s: seq<char>, base: nat): (r: FromCharsResult)
    requires 2 <= base <= 36
    ensures r.ptr <= |s|
    ensures r.ec == InvalidArgument <==> r.ptr == 0
    ensures r.ec != NoError ==> r.value == 0
  {
    Accumulate(s, base, 0, 0)
  }

  /** The digits from index `i` on, with `acc` the value of those before. */
  function Accumulate(s: seq<char>, base: nat, i: nat, acc: nat): (r: FromCharsResult)
    requires 2 <= base <= 36 && i <= |s|
    ensures r.ptr <= |s|
    ensures r.ec == InvalidArgument ==> r.ptr == 0
    ensures r.ec != InvalidArgument ==> i <= r.ptr && 0 < r.ptr
    ensures r.ec != NoError ==> r.value == 0
    decreases |s| - i
  {
    if i < |s| && IsDigit(s[i], base) then Accumulate(s, base, i + 1, acc * base + DigitValue(s[i]))
    else if i == 0 then FromCharsResult(0, InvalidArgument, 0)
    else if acc > ULONG_MAX then FromCharsResult(i, ResultOutOfRange, 0)
    else FromCharsResult(i, NoError, acc)
  }

  /** What `from_chars` is documented to do: match the longest run of
      digits; report `invalid_argument` when there is none (consuming
      nothing), `result_out_of_range` when its value does not fit (having
      consumed it), and otherwise store its value. */
  function LongestRun(s: seq<char>, base: nat): (r: FromCharsResult)
    requires 2 <= base <= 36
    ensures r.ptr <= |s|
  {
    var n := DigitRun(s, base);
    if n == 0 then FromCharsResult(0, InvalidArgument, 0)
    else if Value(s[..n], base) > ULONG_MAX then FromCharsResult(n, ResultOutOfRange, 0)
    else FromCharsResult(n, NoError, Value(s[..n], base))
  }

  /** The left-to-right accumulation computes the documented result. */
  lemma FromCharsIsLongestRun(s: seq<char>, base: nat)
    requires 2 <= base <= 36
    ensures FromChars(s, base) == LongestRun(s, base)
  {
    assert s[..0] == [];
    AccumulateRun(s, base, 0, 0);
  }

  lemma {:induction false} AccumulateRun(s: seq<char>, base: nat, i: nat, acc: nat)
    requires 2 <= base <= 36
    requires i <= DigitRun(s, base)
    requires AllDigits(s[..i], base) && acc == Value(s[..i], base)
    ensures Accumulate(s, base, i, acc) == LongestRun(s, base)
    decreases |s| - i
  {
    var n := DigitRun(s, base);
    if i < n {
      assert s[..n][i] == s[i];
      ValueSnoc(s[..i], s[i], base);
      assert s[..i] + [s[i]] == s[..i + 1];
      AccumulateRun(s, base, i + 1, acc * base + DigitValue(s[i]));
    } else {
      assert s[..i] == s[..n];
    }
  }

  /** `from_chars` stops after the longest run of digits; it reports
      `invalid_argument` exactly when there is none (and then consumes
      nothing), `result_out_of_range` when their value does not fit, and
      otherwise stores that value. */
  lemma FromCharsSpec(s: seq<char>, base: nat)
    requires 2 <= base <= 36
    ensures FromChars(s, base).ptr <= |s|
    ensures FromChars(s, base).ec == InvalidArgument <==> DigitRun(s, base) == 0
    ensures FromChars(s, base).ec != InvalidArgument ==> FromChars(s, base).ptr == DigitRun(s, base)
    ensures FromChars(s, base).ec == InvalidArgument ==> FromChars(s, base).ptr == 0
    ensures FromChars(s, base).ec == ResultOutOfRange <==>
              (DigitRun(s, base) > 0 && Value(s[..DigitRun(s, base)], base) > ULONG_MAX)
    ensures FromChars(s, base).ec == NoError ==>
              FromChars(s, base).value == Value(s[..FromChars(s, base).ptr], base)
    ensures FromChars(s, base).ec != NoError ==> FromChars(s, base).value == 0
  {
    FromCharsIsLongestRun(s, base);
  }

  /** `maps_parser::parse_ulong(sv, base)`: a single `from_chars` call,
      whose value is kept only when it succeeds and consumes the whole
      slice. The default base is 10. */
  function ParseUlong(s: seq<char>, base: nat := 10): Option<ulong>
    requires 2 <= base <= 36
  {
    var res := FromChars(s, base);
    if res.ec == NoError && res.ptr == |s| then Some(res.value) else None
  }

  /** `parse_ulong` gives a value exactly when the slice is a non-empty run
      of digits of `base` whose value fits an `unsigned long`, and then the
      value is that of the digits. */
  lemma ParseUlongSpec(s: seq<char>, base: nat)
    requires 2 <= base <= 36
    ensures ParseUlong(s, base).Some? <==> |s| > 0 && AllDigits(s, base) && Value(s, base) <= ULONG_MAX
    ensures ParseUlong(s, base).Some? ==> ParseUlong(s, base).value == Value(s, base)
  {
    FromCharsSpec(s, base);
    DigitRunOfDigits(s, base);
    assert s[..|s|] == s;
  }

  lemma DigitRunOfDigits(s: seq<char>, base: nat)
    ensures AllDigits(s, base) ==> DigitRun(s, base) == |s|
  {
  }

  // ---------------------------------------------------------------------
  // Digit strings, for the round trip

  const DIGITS: seq<char> := "0123456789abcdefghijklmnopqrstuvwxyz"

  /** The canonical digit string of `n` in `base` (no leading zeros). */
  function ToDigits(n: nat, base: nat): (s: seq<char>)
    requires 2 <= base <= 36
    ensures |s| > 0
    decreases n
  {
    DivMod(n, base);
    if n < base then [DIGITS[n]] else ToDigits(n / base, base) + [DIGITS[n % base]]
  }

  lemma DivMod(n: nat, base: nat)
    requires 2 <= base
    ensures n == (n / base) * base + n % base
    ensures 0 <= n % base < base
    ensures n >= base ==> 1 <= n / base < n
  {
  }

  /** Appending a digit multiplies the value by the base and adds the digit. */
  lemma ValueSnoc(p: seq<char>, c: char, base: nat)
    requires AllDigits(p, base) && IsDigit(c, base)
    ensures AllDigits(p + [c], base)
    ensures Value(p + [c], base) == Value(p, base) * base + DigitValue(c)
  {
    assert (p + [c])[..|p|] == p;
  }

  /** `DIGITS[d]` is the digit of value `d`. */
  lemma DigitOf(d: nat)
    requires d < 36
    ensures DigitValue(DIGITS[d]) == d
  {
    if d < 10 {
      assert DIGITS[d] as int == '0' as int + d;
    } else {
      assert DIGITS[d] as int == 'a' as int + d - 10;
    }
  }

  lemma {:induction false} ToDigitsValue(n: nat, base: nat)
    requires 2 <= base <= 36
    ensures AllDigits(ToDigits(n, base), base)
    ensures Value(ToDigits(n, base), base) == n
    decreases n
  {
    DivMod(n, base);
    if n < base {
      DigitOf(n);
      ValueSnoc([], DIGITS[n], base);
      assert [] + [DIGITS[n]] == ToDigits(n, base);
    } else {
      var q, d := n / base, n % base;
      DigitOf(d);
      ToDigitsValue(q, base);
      var p := ToDigits(q, base);
      ValueSnoc(p, DIGITS[d], base);
      assert ToDigits(n, base) == p + [DIGITS[d]];
    }
  }

  /** Round trip: `parse_ulong` reads back every representable number from
      its digit string, in every base `from_chars` supports. */
  lemma ParseUlongRoundTrip(n: nat, base: nat)
    requires 2 <= base <= 36
    requires n <= ULONG_MAX
    ensures ParseUlong(ToDigits(n, base), base) == Some(n)
  {
    ToDigitsValue(n, base);
    ParseUlongSpec(ToDigits(n, base), base);
  }

  /** A digit string whose value exceeds `ULONG_MAX` is refused
      (`from_chars` reports `result_out_of_range`). */
  lemma ParseUlongOverflow(n: nat, base: nat)
    requires 2 <= base <= 36
    requires n > ULONG_MAX
    ensures ParseUlong(ToDigits(n, base), base) == None
  {
    ToDigitsValue(n, base);
    ParseUlongSpec(ToDigits(n, base), base);
  }

  /** A slice that has a non-digit anywhere (a sign, white space, the "x" of
      a "0x" prefix, a trailing character) is not fully consumed and gives no
      value; so does the empty slice. */
  lemma ParseUlongRejects(s: seq<char>, base: nat, i: nat)
    requires 2 <= base <= 36
    requires i < |s| && !IsDigit(s[i], base)
    ensures ParseUlong(s, base) == None
    ensures FromChars(s, base).ptr <= i
  {
    ParseUlongSpec(s, base);
    FromCharsSpec(s, base);
    var n := DigitRun(s, base);
    assert forall k :: 0 <= k < n ==> IsDigit(s[k], base) by {
      forall k | 0 <= k < n ensures IsDigit(s[k], base) {
        assert s[..n][k] == s[k];
      }
    }
  }

  lemma ParseUlongExamples()
    ensures ParseUlong("") == None
    ensures ParseUlong("-1") == None
    ensures ParseUlong(" 1") == None
    ensures ParseUlong("12a") == None
    ensures ParseUlong("0x10", 16) == None
  {
    ParseUlongRejects("-1", 10, 0);
    ParseUlongRejects(" 1", 10, 0);
    ParseUlongRejects("12a", 10, 2);
    ParseUlongRejects("0x10", 16, 1);
  }

  lemma ParseUlongValueExamples()
    ensures ParseUlong("1234") == Some(1234)
  {
    ValueSnoc("", '1', 10);
    assert "" + ['1'] == "1";
    ValueSnoc("1", '2', 10);
    assert "1" + ['2'] == "12";
    ValueSnoc("12", '3', 10);
    assert "12" + ['3'] == "123";
    ValueSnoc("123", '4', 10);
    assert "123" + ['4'] == "1234";
    ParseUlongSpec("1234", 10);
  }
}
