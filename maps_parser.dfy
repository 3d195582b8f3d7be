/** The parser for one line of the /proc/<pid>/maps table and the loop that
    applies it to every line (src/maps_parser.cpp).

    A line is `start-end perms offset major:minor inode   pathname`. The
    parser runs in stages from left to right: each stage looks for the next
    space from its cursor, fills its own fields of the record and moves the
    cursor past that space, or gives up and returns the record as filled so
    far. `ParseLine` is that staged, cursor-driven parser; `LineSpec` says
    the same thing in terms of the positions of the spaces in the line. */
module MapsParser {
  import opened Common
  import opened Maps

  /** What `parse_line` does with one line: it returns a record, or
      `device_sv.substr(3, 2)` throws `std::out_of_range` because the device
      token is shorter than three characters. */
  datatype LineOutcome = Parsed(entry: MemoryMap) | OutOfRange

  /** What `get_maps` does: it returns the records, one per line, or the
      `std::out_of_range` of one of its lines propagates out of it. */
  datatype MapsOutcome = Table(maps: seq<MemoryMap>) | Threw

  // ---------------------------------------------------------------------
  // The reference description: fields are delimited by single spaces

  /** The positions of all spaces in `s`, in increasing order (see
      `SpacesExact`). */
  function Spaces(s: string): (sp: seq<nat>)
    ensures forall i :: 0 <= i < |sp| ==> sp[i] < |s|
    ensures forall i :: 0 < i < |sp| ==> sp[i - 1] < sp[i]
  {
    if s == [] then [] else Spaces(s[..|s| - 1]) + (if s[|s| - 1] == ' ' then [|s| - 1] else [])
  }

  /** `Spaces(s)` lists exactly the positions of the spaces of `s`, each once,
      in increasing order. */
  lemma {:induction false} SpacesExact(s: string)
    ensures forall i :: 0 <= i < |Spaces(s)| ==> s[Spaces(s)[i]] == ' '
    ensures forall i, j :: 0 <= i < j < |Spaces(s)| ==> Spaces(s)[i] < Spaces(s)[j]
    ensures forall k :: 0 <= k < |s| && s[k] == ' ' ==> k in Spaces(s)
  {
    if s != [] {
      var p := s[..|s| - 1];
      SpacesExact(p);
      assert forall k :: 0 <= k < |p| ==> p[k] == s[k];
    }
  }

  /** Where field `k` starts: at the start of the line, or just past the
      `k`-th space. */
  function FieldStart(sp: seq<nat>, k: nat): nat
    requires k <= |sp|
  {
    if k == 0 then 0 else sp[k - 1] + 1
  }

  /** Field `k`: the text between the `k`-th and the `k+1`-th space. */
  function Field(line: string, sp: seq<nat>, k: nat): string
    requires sp == Spaces(line) && k < |sp|
  {
    line[FieldStart(sp, k)..sp[k]]
  }

  /** The character at index `i` of the line as the permission stage reads
      it: `permisions_sv[k]` indexes the line itself, so a short token lets
      it read on into the following characters; at the end of the line it
      reads the string's terminating NUL (further on the code's behaviour is
      undefined, and the model reads NUL there too). */
  function At(line: string, i: nat): char
  {
    if i < |line| then line[i] else '\0'
  }

  /** The permission stage or-s `PROT_READ`, `PROT_WRITE` and `PROT_EXEC`
      into the protection word for an 'r', 'w' and 'x' at positions 0, 1
      and 2, and `MAP_PRIVATE` for a 'p' (else `MAP_SHARED` for an 's')
      at position 3 into the sharing word. */
  function WithPermissions(m: MemoryMap, c0: char, c1: char, c2: char, c3: char): MemoryMap
  {
    m.(prot := Prot(m.prot.read || c0 == 'r', m.prot.write || c1 == 'w', m.prot.exec || c2 == 'x'),
       flags := Flags(m.flags.mapPrivate || c3 == 'p', m.flags.mapShared || c3 == 's'))
  }

  /** The number of leading characters of `s` equal to `c` (see
      `LeadingSpec`). */
  function Leading(s: string, c: char): (n: nat)
    ensures n <= |s|
  {
    if s == [] || s[0] != c then 0 else 1 + Leading(s[1..], c)
  }

  /** `Leading(s, c)` characters equal to `c` start `s`, and the next one
      differs. */
  lemma {:induction false} LeadingSpec(s: string, c: char)
    ensures forall k :: 0 <= k < Leading(s, c) ==> s[k] == c
    ensures Leading(s, c) < |s| ==> s[Leading(s, c)] != c
  {
    if s != [] && s[0] == c {
      LeadingSpec(s[1..], c);
    }
  }

  /** The pathname text: the tail of the line without its leading spaces,
      unless it is all spaces (`find_first_not_of` reports npos and the
      tail stays as it is). */
  function Trimmed(tail: string): string
  {
    if tail != [] && tail[0] == ' ' && exists i | 0 <= i < |tail| :: tail[i] != ' ' then Trimmed(tail[1..]) else tail
  }

  /** Stripping spaces one at a time is cutting the tail at its first
      non-space, the way the source does it with `find_first_not_of`. */
  lemma {:induction false} TrimmedAtFirstNonSpace(tail: string)
    ensures Trimmed(tail) == if Leading(tail, ' ') < |tail| then tail[Leading(tail, ' ')..] else tail
  {
    LeadingSpec(tail, ' ');
    if tail != [] && tail[0] == ' ' {
      if exists i | 0 <= i < |tail| :: tail[i] != ' ' {
        TrimmedAtFirstNonSpace(tail[1..]);
        var i :| 0 <= i < |tail| && tail[i] != ' ';
        assert tail[1..][i - 1] != ' ';
        assert tail[1..][Leading(tail, ' ') - 1..] == tail[Leading(tail, ' ')..];
      } else {
        assert Leading(tail, ' ') == |tail|;
      }
    }
  }


  /** The pathname stage: a non-empty text is copied into the zeroed
      buffer up to its capacity; an empty one leaves the record as it is. */
  function WithPathname(m: MemoryMap, tail: string): MemoryMap
  {
    var t := Trimmed(tail);
    if |t| > 0 then m.(pathname := t[..Min(|t|, PATH_MAX)]) else m
  }

  function Min(a: int, b: int): int
  {
    if a < b then a else b
  }

  /** The value `parse_ulong(sv, 16).value_or(0)` stored in an `unsigned int`. */
  function HexOrZero(s: string): uint
  {
    var p := ParseUlong(s, 16);
    if p.Some? then p.value % UINT_MOD else 0
  }

  /** What one stage does: fill its fields and go on, stop with the record
      as filled so far, or throw. */
  datatype Step = Go(m: MemoryMap) | Stop(m: MemoryMap) | Throw

  /** Stage 0, the address range `start-end` in hexadecimal. */
  function AddressStage(tok: string, m: MemoryMap): Step
  {
    var hyphen := FindFrom(tok, 0, '-');
    if hyphen == |tok| then Stop(m)
    else match ParseUlong(tok[..hyphen], 16)
    case None => Stop(m)
    case Some(st) =>
      match ParseUlong(tok[hyphen + 1..], 16)
      case None => Stop(m.(start := st))
      case Some(en) => Go(m.(start := st, end := en))
  }

  /** Stage 1, the permission flags, read at positions 0 to 3 from `c`. */
  function PermissionStage(line: string, c: nat, m: MemoryMap): Step
  {
    Go(WithPermissions(m, At(line, c), At(line, c + 1), At(line, c + 2), At(line, c + 3)))
  }

  /** Stage 2, the file offset in hexadecimal. */
  function OffsetStage(tok: string, m: MemoryMap): Step
  {
    match ParseUlong(tok, 16)
    case None => Stop(m)
    case Some(off) => Go(m.(offset := off))
  }

  /** Stage 3, the device: hexadecimal slices [0,2) and [3,5) of the token;
      a slice that does not parse gives 0, a token shorter than 3 throws. */
  function DeviceStage(tok: string, m: MemoryMap): Step
  {
    if |tok| < 3 then Throw
    else Go(m.(devMajor := HexOrZero(tok[..2]), devMinor := HexOrZero(tok[3..Min(5, |tok|)])))
  }

  /** Stage 4, the inode in decimal. */
  function InodeStage(tok: string, m: MemoryMap): Step
  {
    match ParseUlong(tok)
    case None => Stop(m)
    case Some(ino) => Go(m.(inode := ino))
  }

  /** Stage `k` applied to the text from `from` up to the space at `to`. */
  function StageAt(line: string, k: nat, from: nat, to: nat, m: MemoryMap): Step
    requires k < 5 && from <= to <= |line|
  {
    if k == 0 then AddressStage(line[from..to], m)
    else if k == 1 then PermissionStage(line, from, m)
    else if k == 2 then OffsetStage(line[from..to], m)
    else if k == 3 then DeviceStage(line[from..to], m)
    else InodeStage(line[from..to], m)
  }

  /** Stage `k` applied to field `k` of the line. */
  function Stage(line: string, sp: seq<nat>, k: nat, m: MemoryMap): Step
    requires sp == Spaces(line) && k < 5 && k < |sp|
  {
    StageAt(line, k, FieldStart(sp, k), sp[k], m)
  }

  /** The stages from `k` on, given the record filled by the earlier ones.
      A stage runs only when its field is followed by a space; after the
      five delimited fields, the rest of the line is the pathname. */
  function Run(line: string, sp: seq<nat>, k: nat, m: MemoryMap): LineOutcome
    requires sp == Spaces(line) && k <= 5 && (k == 5 ==> 5 <= |sp|)
    decreases 5 - k
  {
    if k == 5 then Parsed(WithPathname(m, line[sp[4] + 1..]))
    else if |sp| <= k then Parsed(m)
    else match Stage(line, sp, k, m)
      case Stop(m') => Parsed(m')
      case Throw => OutOfRange
      case Go(m') => Run(line, sp, k + 1, m')
  }

  /** The whole line: all stages from a value-initialised record. */
  function LineSpec(line: string): LineOutcome
  {
    Run(line, Spaces(line), 0, Zero)
  }

  /** The index of the first `c` in `s` at or after `from`, or `|s|` when
      there is none (see `FindFromSpec`). */
  function FindFrom(s: string, from: nat, c: char): (i: nat)
    requires from <= |s|
    ensures from <= i <= |s|
    decreases |s| - from
  {
    if from == |s| then |s| else if s[from] == c then from else FindFrom(s, from + 1, c)
  }

  /** `FindFrom` stops at the first `c`: none lies before it, and it holds
      `c` unless it is the end. */
  lemma {:induction false} FindFromSpec(s: string, from: nat, c: char)
    requires from <= |s|
    ensures FindFrom(s, from, c) < |s| ==> s[FindFrom(s, from, c)] == c
    ensures forall k :: from <= k < FindFrom(s, from, c) ==> s[k] != c
    decreases |s| - from
  {
    if from < |s| && s[from] != c {
      FindFromSpec(s, from + 1, c);
    }
  }

  // ---------------------------------------------------------------------
  // The parser as the source writes it

  /** `std::find(s.begin() + from, s.end(), c)`. */
  method Find(s: string, from: nat, c: char) returns (i: nat)
    requires from <= |s|
    ensures i == FindFrom(s, from, c)
  {
    i := from;
    while i < |s| && s[i] != c
      invariant from <= i <= |s|
      invariant FindFrom(s, from, c) == FindFrom(s, i, c)
    {
      i := i + 1;
    }
  }

  /** `s.find_first_not_of(c)`, with `|s|` for npos. */
  method FindFirstNot(s: string, c: char) returns (i: nat)
    ensures i == Leading(s, c)
  {
    i := 0;
    while i < |s| && s[i] == c
      invariant 0 <= i <= |s|
      invariant Leading(s, c) == i + Leading(s[i..], c)
    {
      assert s[i..][1..] == s[i + 1..];
      i := i + 1;
    }
  }

  /** The first space at or after the start of field `k` is the `k+1`-th
      space, or the end of the line when there are only `k` spaces. */
  lemma NextSpace(line: string, k: nat)
    requires k <= |Spaces(line)|
    ensures FieldStart(Spaces(line), k) <= |line|
    ensures k < |Spaces(line)| ==> FindFrom(line, FieldStart(Spaces(line), k), ' ') == Spaces(line)[k]
    ensures k == |Spaces(line)| ==> FindFrom(line, FieldStart(Spaces(line), k), ' ') == |line|
  {
    var sp := Spaces(line);
    SpacesExact(line);
    var from := FieldStart(sp, k);
    forall j | 0 <= j < k ensures sp[j] < from {
      if j < k - 1 { assert sp[j] < sp[k - 1]; }
    }
    assert k < |sp| ==> from <= sp[k] by {
      if 0 < k < |sp| { assert sp[k - 1] < sp[k]; }
    }
    FindFromSpec(line, from, ' ');
    var i := FindFrom(line, from, ' ');
    if i < |line| {
      assert i in sp;
      var j :| 0 <= j < |sp| && sp[j] == i;
      assert k <= j;
      if k < |sp| {
        assert i <= sp[k];
        assert forall t :: k < t < |sp| ==> sp[k] < sp[t];
      }
    }
  }

  /** The stages from `k` on as the parser runs them: from the cursor
      `cur`, look for the next space; without one, stop; with one, apply
      the stage to the text in between and move the cursor past it. */
  function Scan(line: string, k: nat, cur: nat, m: MemoryMap): LineOutcome
    requires k <= 5 && cur <= |line|
    decreases 5 - k
  {
    if k == 5 then Parsed(WithPathname(m, line[cur..]))
    else
      var next := FindFrom(line, cur, ' ');
      if next == |line| then Parsed(m)
      else match StageAt(line, k, cur, next, m)
        case Stop(m') => Parsed(m')
        case Throw => OutOfRange
        case Go(m') => Scan(line, k + 1, next + 1, m')
  }

  /** The cursor-driven scan from the start of field `k` agrees with the
      field-by-field description. */
  lemma {:induction false} ScanIsRun(line: string, k: nat, m: MemoryMap)
    requires k <= 5 && k <= |Spaces(line)|
    ensures FieldStart(Spaces(line), k) <= |line|
    ensures Scan(line, k, FieldStart(Spaces(line), k), m) == Run(line, Spaces(line), k, m)
    decreases 5 - k
  {
    var sp := Spaces(line);
    if k == 5 {
      assert sp[4] < |line|;
    } else {
      NextSpace(line, k);
      if k == |sp| {
        ScanStops(line, k, m);
      } else {
        ScanSteps(line, k, m);
        var step := Stage(line, sp, k, m);
        if step.Go? {
          ScanIsRun(line, k + 1, step.m);
        }
      }
    }
  }

  lemma ScanStops(line: string, k: nat, m: MemoryMap)
    requires k < 5 && k == |Spaces(line)|
    ensures FieldStart(Spaces(line), k) <= |line|
    ensures Scan(line, k, FieldStart(Spaces(line), k), m) == Parsed(m)
    ensures Run(line, Spaces(line), k, m) == Parsed(m)
  {
    NextSpace(line, k);
  }

  lemma ScanSteps(line: string, k: nat, m: MemoryMap)
    requires k < 5 && k < |Spaces(line)|
    ensures FieldStart(Spaces(line), k) <= |line| && FieldStart(Spaces(line), k + 1) <= |line|
    ensures Scan(line, k, FieldStart(Spaces(line), k), m)
            == match Stage(line, Spaces(line), k, m)
               case Stop(m') => Parsed(m')
               case Throw => OutOfRange
               case Go(m') => Scan(line, k + 1, FieldStart(Spaces(line), k + 1), m')
    ensures Run(line, Spaces(line), k, m)
            == match Stage(line, Spaces(line), k, m)
               case Stop(m') => Parsed(m')
               case Throw => OutOfRange
               case Go(m') => Run(line, Spaces(line), k + 1, m')
  {
    NextSpace(line, k);
  }

  /** The steps of `Scan`: without a further space it returns the record
      as it is; otherwise what stage `k` does decides. */
  lemma ScanEnd(line: string, k: nat, cur: nat, m: MemoryMap)
    requires k < 5 && cur <= |line| && FindFrom(line, cur, ' ') == |line|
    ensures Scan(line, k, cur, m) == Parsed(m)
  {
  }

  /** One step of `Scan` when the stage goes on. */
  lemma ScanGo(line: string, k: nat, cur: nat, m: MemoryMap, m': MemoryMap)
    requires k < 5 && cur <= |line| && FindFrom(line, cur, ' ') < |line|
    requires StageAt(line, k, cur, FindFrom(line, cur, ' '), m) == Go(m')
    ensures Scan(line, k, cur, m) == Scan(line, k + 1, FindFrom(line, cur, ' ') + 1, m')
  {
  }

  // Each block's ways out, as steps of `Scan`: the stage stops with the
  // record given, or fills its fields and goes on past the space.

  lemma AddressStop(line: string, cur: nat, m: MemoryMap, m': MemoryMap)
    requires cur <= |line| && FindFrom(line, cur, ' ') < |line|
    requires AddressStage(line[cur..FindFrom(line, cur, ' ')], m) == Stop(m')
    ensures Scan(line, 0, cur, m) == Parsed(m')
  {
  }

  lemma OffsetStop(line: string, cur: nat, m: MemoryMap)
    requires cur <= |line| && FindFrom(line, cur, ' ') < |line|
    requires ParseUlong(line[cur..FindFrom(line, cur, ' ')], 16).None?
    ensures Scan(line, 2, cur, m) == Parsed(m)
  {
  }

  lemma InodeStop(line: string, cur: nat, m: MemoryMap)
    requires cur <= |line| && FindFrom(line, cur, ' ') < |line|
    requires ParseUlong(line[cur..FindFrom(line, cur, ' ')]).None?
    ensures Scan(line, 4, cur, m) == Parsed(m)
  {
  }

  /** `maps_parser::parse_line`: the staged parser over a cursor into the
      line, filling a value-initialised record block by block. Each block
      looks for the space that ends its field from the cursor, and either
      makes the parser return (with the record as filled so far, or with
      the exception) or fills its fields and moves the cursor past that
      space. */
  method ParseLine(line: string) returns (r: LineOutcome)
    ensures r == LineSpec(line)
  {
    var entry := Zero;
    var current: nat := 0;
    var done: bool;
    ScanIsRun(line, 0, Zero);
    // 1. Address (start-end)
    done, r, entry, current := AddressBlock(line, current, entry);
    if done {
      return;
    }
    // 2. Permissions
    done, r, entry, current := PermissionsBlock(line, current, entry);
    if done {
      return;
    }
    // 3. Offset
    done, r, entry, current := OffsetBlock(line, current, entry);
    if done {
      return;
    }
    // 4. Device
    done, r, entry, current := DeviceBlock(line, current, entry);
    if done {
      return;
    }
    // 5. Inode
    done, r, entry, current := InodeBlock(line, current, entry);
    if done {
      return;
    }
    // 6. Pathname (remaining part of the line)
    r := PathnameBlock(line, current, entry);
  }

  /** Block 1: the address token up to the first space, split at its first
      hyphen, both halves in hexadecimal; the start is stored before the
      end is parsed. */
  method AddressBlock(line: string, current: nat, entry: MemoryMap)
    returns (done: bool, r: LineOutcome, entry': MemoryMap, current': nat)
    requires current <= |line|
    ensures done ==> r == Scan(line, 0, current, entry)
    ensures !done ==> current' <= |line| && Scan(line, 0, current, entry) == Scan(line, 1, current', entry')
  {
    done, r, entry', current' := true, Parsed(entry), entry, current;
    var space1 := Find(line, current, ' ');
    if space1 == |line| {
      ScanEnd(line, 0, current, entry);
      return true, Parsed(entry), entry', current';
    }
    var address := line[current..space1];
    var hyphen := Find(address, 0, '-');
    if hyphen == |address| {
      AddressStop(line, current, entry, entry);
      return true, Parsed(entry'), entry', current';
    }
    var startAddr := ParseUlong(address[..hyphen], 16);
    if startAddr.None? {
      AddressStop(line, current, entry, entry);
      return true, Parsed(entry'), entry', current';
    }
    entry' := entry'.(start := startAddr.value);
    var endAddr := ParseUlong(address[hyphen + 1..], 16);
    if endAddr.None? {
      AddressStop(line, current, entry, entry');
      return true, Parsed(entry'), entry', current';
    }
    entry' := entry'.(end := endAddr.value);
    ScanGo(line, 0, current, entry, entry');
    current' := space1 + 1;
    done := false;
  }

  /** Block 2: the permission characters tested one by one, at the cursor
      and the three positions after it. */
  method PermissionsBlock(line: string, current: nat, entry: MemoryMap)
    returns (done: bool, r: LineOutcome, entry': MemoryMap, current': nat)
    requires current <= |line|
    ensures done ==> r == Scan(line, 1, current, entry)
    ensures !done ==> current' <= |line| && Scan(line, 1, current, entry) == Scan(line, 2, current', entry')
  {
    done, r, entry', current' := true, Parsed(entry), entry, current;
    var space2 := Find(line, current, ' ');
    if space2 == |line| {
      ScanEnd(line, 1, current, entry);
      return true, Parsed(entry), entry', current';
    }
    var perms := current;
    current' := space2 + 1;
    if At(line, perms) == 'r' {
      entry' := entry'.(prot := entry'.prot.(read := true));
    }
    if At(line, perms + 1) == 'w' {
      entry' := entry'.(prot := entry'.prot.(write := true));
    }
    if At(line, perms + 2) == 'x' {
      entry' := entry'.(prot := entry'.prot.(exec := true));
    }
    if At(line, perms + 3) == 'p' {
      entry' := entry'.(flags := entry'.flags.(mapPrivate := true));
    } else if At(line, perms + 3) == 's' {
      entry' := entry'.(flags := entry'.flags.(mapShared := true));
    }
    ScanGo(line, 1, current, entry, entry');
    done := false;
  }

  /** Block 3: the offset in hexadecimal. */
  method OffsetBlock(line: string, current: nat, entry: MemoryMap)
    returns (done: bool, r: LineOutcome, entry': MemoryMap, current': nat)
    requires current <= |line|
    ensures done ==> r == Scan(line, 2, current, entry)
    ensures !done ==> current' <= |line| && Scan(line, 2, current, entry) == Scan(line, 3, current', entry')
  {
    done, r, entry', current' := true, Parsed(entry), entry, current;
    var space3 := Find(line, current, ' ');
    if space3 == |line| {
      ScanEnd(line, 2, current, entry);
      return true, Parsed(entry), entry', current';
    }
    var offset := ParseUlong(line[current..space3], 16);
    if offset.None? {
      OffsetStop(line, current, entry);
      return true, Parsed(entry), entry', current';
    }
    entry' := entry'.(offset := offset.value);
    ScanGo(line, 2, current, entry, entry');
    current' := space3 + 1;
    done := false;
  }

  /** Block 4: `substr(0, 2)` and `substr(3, 2)` of the device token, each
      in hexadecimal with 0 for a failure; `substr(3, 2)` throws when the
      token is shorter than 3, after the major number is stored. */
  method DeviceBlock(line: string, current: nat, entry: MemoryMap)
    returns (done: bool, r: LineOutcome, entry': MemoryMap, current': nat)
    requires current <= |line|
    ensures done ==> r == Scan(line, 3, current, entry)
    ensures !done ==> current' <= |line| && Scan(line, 3, current, entry) == Scan(line, 4, current', entry')
  {
    done, r, entry', current' := true, Parsed(entry), entry, current;
    var space4 := Find(line, current, ' ');
    if space4 == |line| {
      ScanEnd(line, 3, current, entry);
      return true, Parsed(entry), entry', current';
    }
    var device := line[current..space4];
    current' := space4 + 1;
    var major := ParseHexOrZero(device[..Min(2, |device|)]);
    entry' := entry'.(devMajor := major);
    if |device| < 3 {
      DeviceThrow(line, current, entry);
      return true, OutOfRange, entry', current';
    }
    var minor := ParseHexOrZero(device[3..Min(5, |device|)]);
    DeviceGo(line, current, entry, major, minor);
    entry' := entry'.(devMinor := minor);
    done := false;
  }

  /** `parse_ulong(s, 16).value_or(0)`, narrowed to `unsigned int`. */
  method ParseHexOrZero(s: string) returns (v: uint)
    ensures v == HexOrZero(s)
  {
    var p := ParseUlong(s, 16);
    v := if p.Some? then p.value % UINT_MOD else 0;
  }

  /** The device block's two ways out, as steps of `Scan`: a token shorter
      than three throws, a longer one fills both numbers and goes on. */
  lemma DeviceThrow(line: string, cur: nat, m: MemoryMap)
    requires cur <= |line| && FindFrom(line, cur, ' ') < |line| && FindFrom(line, cur, ' ') - cur < 3
    ensures Scan(line, 3, cur, m) == OutOfRange
  {
  }

  lemma DeviceGo(line: string, cur: nat, m: MemoryMap, major: uint, minor: uint)
    requires cur <= |line| && FindFrom(line, cur, ' ') < |line|
    requires var tok := line[cur..FindFrom(line, cur, ' ')];
             3 <= |tok| && major == HexOrZero(tok[..2]) && minor == HexOrZero(tok[3..Min(5, |tok|)])
    ensures Scan(line, 3, cur, m) == Scan(line, 4, FindFrom(line, cur, ' ') + 1, m.(devMajor := major, devMinor := minor))
  {
  }

  /** Block 5: the inode in decimal. */
  method InodeBlock(line: string, current: nat, entry: MemoryMap)
    returns (done: bool, r: LineOutcome, entry': MemoryMap, current': nat)
    requires current <= |line|
    ensures done ==> r == Scan(line, 4, current, entry)
    ensures !done ==> current' <= |line| && Scan(line, 4, current, entry) == Scan(line, 5, current', entry')
  {
    done, r, entry', current' := true, Parsed(entry), entry, current;
    var space5 := Find(line, current, ' ');
    if space5 == |line| {
      ScanEnd(line, 4, current, entry);
      return true, Parsed(entry), entry', current';
    }
    var inode := ParseUlong(line[current..space5]);
    if inode.None? {
      InodeStop(line, current, entry);
      return true, Parsed(entry), entry', current';
    }
    entry' := entry'.(inode := inode.value);
    ScanGo(line, 4, current, entry, entry');
    current' := space5 + 1;
    done := false;
  }

  /** Block 6: the rest of the line, without its leading spaces when it
      has a non-space, copied up to the capacity of the buffer. */
  method PathnameBlock(line: string, current: nat, entry: MemoryMap) returns (r: LineOutcome)
    requires current <= |line|
    ensures r == Scan(line, 5, current, entry)
  {
    var entry' := entry;
    var pathname := line[current..];
    TrimmedAtFirstNonSpace(pathname);
    var firstNonSpace := FindFirstNot(pathname, ' ');
    if firstNonSpace < |pathname| {
      pathname := pathname[firstNonSpace..];
    }
    if |pathname| > 0 {
      entry' := entry'.(pathname := pathname[..Min(|pathname|, PATH_MAX)]);
    }
    return Parsed(entry');
  }

  // ---------------------------------------------------------------------
  // The whole table

  /** `maps_parser::get_maps`: the lines `getline` reads from the maps file,
      each parsed and appended in order, or no records at all when the
      file cannot be opened (`None`). An exception from a line propagates. */
  method GetMaps(file: Option<seq<string>>) returns (r: MapsOutcome)
    ensures file.None? ==> r == Table([])
    ensures file.Some? ==>
              (r.Threw? <==> exists i :: 0 <= i < |file.value| && LineSpec(file.value[i]).OutOfRange?)
    ensures file.Some? && r.Table? ==>
              |r.maps| == |file.value| &&
              forall i :: 0 <= i < |file.value| ==> LineSpec(file.value[i]) == Parsed(r.maps[i])
  {
    if file.None? {
      return Table([]);
    }
    var lines := file.value;
    var maps: seq<MemoryMap> := [];
    var i := 0;
    while i < |lines|
      invariant 0 <= i <= |lines|
      invariant |maps| == i
      invariant forall j :: 0 <= j < i ==> LineSpec(lines[j]) == Parsed(maps[j])
    {
      var entry := ParseLine(lines[i]);
      if entry.OutOfRange? {
        return Threw;
      }
      maps := maps + [entry.entry];
      i := i + 1;
    }
    return Table(maps);
  }

  // ---------------------------------------------------------------------
  // Properties of the parser

  /** The fields that stages `k` and later fill still hold their zero. */
  predicate ZeroFrom(m: MemoryMap, k: nat)
  {
    (k <= 0 ==> m.start == 0 && m.end == 0) &&
    (k <= 1 ==> m.prot == Prot(false, false, false) && m.flags == Flags(false, false)) &&
    (k <= 2 ==> m.offset == 0) &&
    (k <= 3 ==> m.devMajor == 0 && m.devMinor == 0) &&
    (k <= 4 ==> m.inode == 0) &&
    (k <= 5 ==> m.pathname == [])
  }

  /** The record as stage `k` receives it, when the stages before it all
      went on; `None` when the line stops or throws earlier. */
  function StateAt(line: string, k: nat): Option<MemoryMap>
    requires k <= 5
  {
    if k == 0 then Some(Zero)
    else match StateAt(line, k - 1)
      case None => None
      case Some(m) =>
        if |Spaces(line)| <= k - 1 then None
        else match Stage(line, Spaces(line), k - 1, m)
          case Go(m') => Some(m')
          case _ => None
  }

  /** Each stage touches only its own fields: on a record whose later
      fields are zero, what it goes on or stops with has the fields of the
      stages after it zero, and a stage other than the address stage stops
      with the record it was given. */
  lemma StageKeepsLater(line: string, k: nat, m: MemoryMap)
    requires k < 5 && k < |Spaces(line)| && ZeroFrom(m, k)
    ensures !Stage(line, Spaces(line), k, m).Throw? ==> ZeroFrom(Stage(line, Spaces(line), k, m).m, k + 1)
    ensures Stage(line, Spaces(line), k, m).Stop? && 0 < k ==> Stage(line, Spaces(line), k, m).m == m
  {
  }

  /** The state stage `k` receives has every field of stage `k` and later
      still zero, and the rest of the line is parsed from it. */
  lemma {:induction false} StateAtSpec(line: string, k: nat)
    requires k <= 5
    ensures StateAt(line, k).Some? ==>
              k <= |Spaces(line)| && ZeroFrom(StateAt(line, k).value, k) &&
              LineSpec(line) == Run(line, Spaces(line), k, StateAt(line, k).value)
  {
    if 0 < k {
      StateAtSpec(line, k - 1);
      if StateAt(line, k - 1).Some? && k - 1 < |Spaces(line)| {
        StageKeepsLater(line, k - 1, StateAt(line, k - 1).value);
      }
    }
  }

  /** When a stage gives up, the line's record is what the earlier stages
      filled: the field of a stage other than the first is left zero, and
      so is every later field. A stage gives up when its field is not
      followed by a space, or, for the address, the offset and the inode,
      when its text does not parse. Only the address stage stops with a
      partial result of its own: the start address without the end. */
  lemma StageFailure(line: string, k: nat)
    requires k < 5 && StateAt(line, k).Some?
    ensures |Spaces(line)| == k ==>
              LineSpec(line) == Parsed(StateAt(line, k).value) && ZeroFrom(StateAt(line, k).value, k)
    ensures k < |Spaces(line)| && Stage(line, Spaces(line), k, StateAt(line, k).value).Stop? ==>
              var r := Stage(line, Spaces(line), k, StateAt(line, k).value).m;
              LineSpec(line) == Parsed(r) && ZeroFrom(r, k + 1) && (0 < k ==> r == StateAt(line, k).value)
  {
    StateAtSpec(line, k);
    if k < |Spaces(line)| {
      StageKeepsLater(line, k, StateAt(line, k).value);
    }
  }

  /** When each stage stops or throws: the permission stage never fails,
      the device stage only throws (on a token shorter than 3), and the
      other stages stop exactly when their text does not parse. */
  lemma StageOutcome(line: string, k: nat, m: MemoryMap)
    requires k < 5 && k < |Spaces(line)|
    ensures var tok := Field(line, Spaces(line), k);
            (Stage(line, Spaces(line), k, m).Throw? <==> k == 3 && |tok| < 3) &&
            ('-' in tok <==> FindFrom(tok, 0, '-') < |tok|) &&
            (Stage(line, Spaces(line), k, m).Stop? <==>
               (k == 0 && (FindFrom(tok, 0, '-') == |tok| || ParseUlong(tok[..FindFrom(tok, 0, '-')], 16).None? ||
                           ParseUlong(tok[FindFrom(tok, 0, '-') + 1..], 16).None?)) ||
               (k == 2 && ParseUlong(tok, 16).None?) ||
               (k == 4 && ParseUlong(tok).None?))
  {
    var tok := Field(line, Spaces(line), k);
    FindFromSpec(tok, 0, '-');
    if '-' in tok {
      var i :| 0 <= i < |tok| && tok[i] == '-';
      assert FindFrom(tok, 0, '-') <= i;
    }
  }

  /** An address field without a hyphen gives the all-zero record. */
  lemma NoHyphen(line: string)
    requires 0 < |Spaces(line)| && '-' !in Field(line, Spaces(line), 0)
    ensures LineSpec(line) == Parsed(Zero)
  {
    StageOutcome(line, 0, Zero);
    StageFailure(line, 0);
  }

  /** If the start address parses and the end address does not, the record
      holds the start address and nothing else. */
  lemma StartWithoutEnd(line: string, a: string, b: string, st: ulong)
    requires 0 < |Spaces(line)| && Field(line, Spaces(line), 0) == a + "-" + b && '-' !in a
    requires ParseUlong(a, 16) == Some(st) && ParseUlong(b, 16).None?
    ensures LineSpec(line) == Parsed(Zero.(start := st))
  {
    var tok := a + "-" + b;
    FindFromSpec(tok, 0, '-');
    assert tok[|a|] == '-';
    assert FindFrom(tok, 0, '-') == |a|;
    assert tok[..|a|] == a && tok[|a| + 1..] == b;
  }

  /** A line with fewer than five spaces stops at the stage whose field is
      not followed by a space: that field and all later ones stay zero. */
  lemma {:induction false} MissingSpace(line: string, k: nat, m: MemoryMap)
    requires |Spaces(line)| < 5 && k <= |Spaces(line)| && ZeroFrom(m, k)
    ensures Run(line, Spaces(line), k, m).Parsed? ==> ZeroFrom(Run(line, Spaces(line), k, m).entry, |Spaces(line)|)
    decreases 5 - k
  {
    if k < |Spaces(line)| {
      StageKeepsLater(line, k, m);
      match Stage(line, Spaces(line), k, m)
      case Go(m') => MissingSpace(line, k + 1, m');
      case Stop(_) =>
      case Throw =>
    }
  }

  /** No space after the inode field: the record has inode 0 and an empty
      pathname. */
  lemma NoSpaceAfterInode(line: string)
    requires |Spaces(line)| == 4
    ensures LineSpec(line).Parsed? ==> LineSpec(line).entry.inode == 0 && LineSpec(line).entry.pathname == []
  {
    MissingSpace(line, 0, Zero);
  }

  /** At most one of the two sharing flags is set. */
  predicate Exclusive(f: Flags)
  {
    !(f.mapPrivate && f.mapShared)
  }

  /** The stages after the permission stage leave protection and sharing as
      they are, and the permission stage, given clear flags, sets at most one
      sharing flag. */
  lemma {:induction false} RunFlags(line: string, k: nat, m: MemoryMap)
    requires k <= 5 && (k == 5 ==> 5 <= |Spaces(line)|)
    requires Exclusive(m.flags) && (k <= 1 ==> m.flags == Flags(false, false))
    ensures Run(line, Spaces(line), k, m).Parsed? ==> Exclusive(Run(line, Spaces(line), k, m).entry.flags)
    ensures Run(line, Spaces(line), k, m).Parsed? && 2 <= k ==>
              Run(line, Spaces(line), k, m).entry.prot == m.prot && Run(line, Spaces(line), k, m).entry.flags == m.flags
    decreases 5 - k
  {
    if k < 5 && k < |Spaces(line)| {
      StageFlags(line, k, m);
      var st := Stage(line, Spaces(line), k, m);
      if st.Go? {
        RunFlags(line, k + 1, st.m);
      }
    }
  }

  /** What one stage does to the permission bits: only the permission
      stage changes them, and from clear flags it sets at most one. */
  lemma StageFlags(line: string, k: nat, m: MemoryMap)
    requires k < 5 && k < |Spaces(line)|
    requires Exclusive(m.flags) && (k <= 1 ==> m.flags == Flags(false, false))
    ensures var st := Stage(line, Spaces(line), k, m);
            !st.Throw? ==>
              Exclusive(st.m.flags) &&
              (k != 1 ==> st.m.prot == m.prot && st.m.flags == m.flags)
  {
  }

  /** MAP_PRIVATE and MAP_SHARED are never both set. */
  lemma FlagsExclusive(line: string)
    ensures LineSpec(line).Parsed? ==> Exclusive(LineSpec(line).entry.flags)
  {
    RunFlags(line, 0, Zero);
  }

  /** Once the permission stage has run, each permission character decides
      its own bit: 'r', 'w' and 'x' at positions 0, 1 and 2 of the field set
      read, write and execute, 'p' at position 3 sets MAP_PRIVATE and 's'
      MAP_SHARED; any other character leaves its bit clear. */
  lemma Permissions(line: string)
    requires StateAt(line, 2).Some?
    ensures var c := FieldStart(Spaces(line), 1);
            var e := StateAt(line, 2).value;
            (e.prot.read <==> At(line, c) == 'r') &&
            (e.prot.write <==> At(line, c + 1) == 'w') &&
            (e.prot.exec <==> At(line, c + 2) == 'x') &&
            (e.flags.mapPrivate <==> At(line, c + 3) == 'p') &&
            (e.flags.mapShared <==> At(line, c + 3) == 's') &&
            (LineSpec(line).Parsed? ==> LineSpec(line).entry.prot == e.prot && LineSpec(line).entry.flags == e.flags)
  {
    StateAtSpec(line, 1);
    StateAtSpec(line, 2);
    RunFlags(line, 2, StateAt(line, 2).value);
  }

  /** Stage `k` read off its own field `tok` alone; the permission stage
      reads the field's first four characters. */
  function TokenStage(k: nat, tok: string, m: MemoryMap): Step
    requires k < 5
  {
    if k == 0 then AddressStage(tok, m)
    else if k == 1 then PermissionStage(tok, 0, m)
    else if k == 2 then OffsetStage(tok, m)
    else if k == 3 then DeviceStage(tok, m)
    else InodeStage(tok, m)
  }

  /** The fields `ts`, each followed by one space. */
  function Joined(ts: seq<string>): string
  {
    if ts == [] then [] else ts[0] + " " + Joined(ts[1..])
  }

  /** Reference definition by fields: the record of a line made of the
      fields `ts` of stages `k` to 4, each followed by one space, and then
      the tail, when each stage reads exactly its own field, in order. */
  function FromTokens(ts: seq<string>, k: nat, tail: string, m: MemoryMap): LineOutcome
    requires k <= 5 && |ts| == 5 - k
    decreases 5 - k
  {
    if k == 5 then Parsed(WithPathname(m, tail))
    else match TokenStage(k, ts[0], m)
      case Stop(m') => Parsed(m')
      case Throw => OutOfRange
      case Go(m') => FromTokens(ts[1..], k + 1, tail, m')
  }

  /** `FindFrom` over a run of other characters ends at the `c` after it. */
  lemma {:induction false} FindAfterRun(s: string, from: nat, n: nat, c: char)
    requires from + n < |s| && s[from + n] == c
    requires forall j :: from <= j < from + n ==> s[j] != c
    ensures FindFrom(s, from, c) == from + n
    decreases n
  {
    if 0 < n {
      FindAfterRun(s, from + 1, n - 1, c);
    }
  }

  /** One step of `Scan` over a field `tok` followed by a space. */
  lemma ScanField(line: string, k: nat, cur: nat, tok: string, m: MemoryMap)
    requires k < 5 && cur + |tok| < |line| && line[cur..cur + |tok|] == tok && ' ' !in tok
    requires line[cur + |tok|] == ' '
    ensures Scan(line, k, cur, m) ==
              match StageAt(line, k, cur, cur + |tok|, m)
              case Stop(m') => Parsed(m')
              case Throw => OutOfRange
              case Go(m') => Scan(line, k + 1, cur + |tok| + 1, m')
  {
    forall j | cur <= j < cur + |tok| ensures line[j] != ' ' {
      assert line[j] == tok[j - cur];
    }
    FindAfterRun(line, cur, |tok|, ' ');
  }

  /** Where the first of the fields `ts` lies in `line` from `cur`. */
  lemma TokenLayout(line: string, cur: nat, ts: seq<string>, tail: string)
    requires cur <= |line| && ts != [] && line[cur..] == Joined(ts) + tail
    ensures cur + |ts[0]| < |line| && line[cur..cur + |ts[0]|] == ts[0] && line[cur + |ts[0]|] == ' '
    ensures line[cur + |ts[0]| + 1..] == Joined(ts[1..]) + tail
  {
    var n := |ts[0]|;
    var rest := Joined(ts[1..]) + tail;
    assert line[cur..] == ts[0] + " " + rest;
    assert line[cur..][..n] == ts[0];
    assert line[cur..][n] == ' ';
    assert line[cur..][n + 1..] == rest;
  }

  /** A stage applied to a field of the line reads only that field. */
  lemma StageOfToken(line: string, k: nat, cur: nat, tok: string, m: MemoryMap)
    requires k < 5 && cur + |tok| <= |line| && line[cur..cur + |tok|] == tok
    requires k == 1 ==> 4 <= |tok|
    ensures StageAt(line, k, cur, cur + |tok|, m) == TokenStage(k, tok, m)
  {
    if k == 1 {
      assert tok[0] == At(line, cur) && tok[1] == At(line, cur + 1);
      assert tok[2] == At(line, cur + 2) && tok[3] == At(line, cur + 3);
    }
  }

  /** One step of `Scan` over a field `tok` followed by a space, in terms
      of the field alone. */
  lemma ScanToken(line: string, k: nat, cur: nat, tok: string, m: MemoryMap)
    requires k < 5 && cur + |tok| < |line| && line[cur..cur + |tok|] == tok && ' ' !in tok
    requires line[cur + |tok|] == ' ' && (k == 1 ==> 4 <= |tok|)
    ensures Scan(line, k, cur, m) ==
              match TokenStage(k, tok, m)
              case Stop(m') => Parsed(m')
              case Throw => OutOfRange
              case Go(m') => Scan(line, k + 1, cur + |tok| + 1, m')
  {
    ScanField(line, k, cur, tok, m);
    StageOfToken(line, k, cur, tok, m);
  }

  /** `Scan` and the reference definition agree on field `k` once they
      agree on the fields after it. */
  lemma TokensStep(line: string, k: nat, cur: nat, ts: seq<string>, tail: string, m: MemoryMap)
    requires k < 5 && |ts| == 5 - k && cur <= |line| && line[cur..] == Joined(ts) + tail
    requires ' ' !in ts[0] && (k == 1 ==> 4 <= |ts[0]|)
    requires cur + |ts[0]| + 1 <= |line|
    requires TokenStage(k, ts[0], m).Go? ==>
               Scan(line, k + 1, cur + |ts[0]| + 1, TokenStage(k, ts[0], m).m) ==
               FromTokens(ts[1..], k + 1, tail, TokenStage(k, ts[0], m).m)
    ensures Scan(line, k, cur, m) == FromTokens(ts, k, tail, m)
  {
    TokenLayout(line, cur, ts, tail);
    ScanToken(line, k, cur, ts[0], m);
  }

  /** The scan from the start of field `k` over space-free fields `ts`,
      each followed by one space, agrees with the reference definition. */
  lemma {:induction false} ScanTokens(line: string, k: nat, cur: nat, ts: seq<string>, tail: string, m: MemoryMap)
    requires k <= 5 && |ts| == 5 - k && cur <= |line|
    requires line[cur..] == Joined(ts) + tail
    requires forall t | t in ts :: ' ' !in t
    requires k <= 1 ==> 4 <= |ts[1 - k]|
    ensures Scan(line, k, cur, m) == FromTokens(ts, k, tail, m)
    decreases 5 - k
  {
    if k < 5 {
      TokenLayout(line, cur, ts, tail);
      var st := TokenStage(k, ts[0], m);
      if st.Go? {
        ScanTokens(line, k + 1, cur + |ts[0]| + 1, ts[1..], tail, st.m);
      }
      TokensStep(line, k, cur, ts, tail, m);
    } else {
      assert line[cur..] == tail;
    }
  }

  /** A line of five space-free fields, each followed by one space, with a
      permission field of at least four characters, is parsed field by field. */
  lemma FieldsOfLine(ts: seq<string>, tail: string)
    requires |ts| == 5 && 4 <= |ts[1]|
    requires forall t | t in ts :: ' ' !in t
    ensures LineSpec(Joined(ts) + tail) == FromTokens(ts, 0, tail, Zero)
  {
    var line := Joined(ts) + tail;
    ScanIsRun(line, 0, Zero);
    ScanTokens(line, 0, 0, ts, tail, Zero);
  }

  /** The pathname text is the tail without its leading spaces, so it does
      not start with a space, unless the tail is all spaces, in which case
      it is the tail itself. The pathname stage copies a non-empty text up
      to the buffer's capacity, truncating a longer one, and changes no
      other field. */
  lemma PathnameSpec(m: MemoryMap, tail: string)
    ensures var t := Trimmed(tail);
            |t| <= |tail| && t == tail[|tail| - |t|..] &&
            (forall j :: 0 <= j < |tail| - |t| ==> tail[j] == ' ') &&
            ((exists j :: 0 <= j < |tail| && tail[j] != ' ') ==> t[0] != ' ') &&
            ((forall j :: 0 <= j < |tail| ==> tail[j] == ' ') ==> t == tail)
    ensures var t := Trimmed(tail);
            var r := WithPathname(m, tail);
            r.(pathname := m.pathname) == m &&
            (|t| > 0 ==> |r.pathname| == Min(|t|, PATH_MAX) && r.pathname == t[..|r.pathname|]) &&
            (t == [] ==> r == m)
  {
    LeadingSpec(tail, ' ');
    TrimmedAtFirstNonSpace(tail);
    var n := Leading(tail, ' ');
    if exists j :: 0 <= j < |tail| && tail[j] != ' ' {
      var j :| 0 <= j < |tail| && tail[j] != ' ';
      assert n <= j;
    }
  }
}
