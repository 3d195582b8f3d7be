/** `serializer::read_serialized_mdata` (src/serializer.cpp): check the
    header of a checkpoint file, then collect the index entries by reading
    one, seeking past its payload, and reading the next, until a read comes
    up short. */
module ReadIndex {
  import opened Common
  import opened Maps
  import opened Format
  import opened Serialized

  /** The vector of entries, or the `std::bad_alloc` that `push_back`
      throws once `room` entries have been stored: a file whose entries
      point back at themselves would otherwise be read for ever. */
  datatype IndexOutcome = Listed(entries: seq<Mdata>) | OutOfMemory

  /** Where `lseek(fd, md.offset + md.size, SEEK_SET)` leaves the file after
      the entry at `pos` was read: the `size_t` sum taken as an `off_t`; a
      sum beyond `off_t` is negative, the seek fails, and the position stays
      just after the entry. */
  function NextPos(md: Mdata, pos: nat, mdSize: nat): (next: nat)
    ensures md.offset + md.size <= OFF_T_MAX ==> next == md.offset + md.size
    ensures OFF_T_MAX < md.offset + md.size < ULONG_MOD ==> next == pos + mdSize
  {
    var t := (md.offset + md.size) % ULONG_MOD;
    if t <= OFF_T_MAX then t else pos + mdSize
  }

  /** The loop from file position `pos` on, with room left for `room`
      more entries: never more entries than there is room for, and the
      first one decoded from a whole entry's bytes at `pos`. */
  function Scan(L: Layout, file: seq<byte>, pos: nat, room: nat): (o: IndexOutcome)
    ensures o.Listed? ==> |o.entries| <= room
    decreases room
  {
    var b := ReadAt(file, pos, L.mdataSize);
    if |b| != L.mdataSize then Listed([])
    else if room == 0 then OutOfMemory
    else
      var md := L.decodeMdata(b);
      match Scan(L, file, NextPos(md, pos, L.mdataSize), room - 1)
      case OutOfMemory => OutOfMemory
      case Listed(rest) => Listed([md] + rest)
  }

  /** `v` followed by the entries of `o`. */
  function Prefixed(v: seq<Mdata>, o: IndexOutcome): IndexOutcome
  {
    match o
    case OutOfMemory => OutOfMemory
    case Listed(rest) => Listed(v + rest)
  }

  /** `read_serialized_mdata` on the file at the path, if it opens: no
      entries when it does not, when its header is short, or when the
      header's magic number is not "RECK". An index is never longer than
      the room for it, and a non-empty one starts with the entry stored
      right after the header. */
  function ReadIndexSpec(L: Layout, file: Option<seq<byte>>, cap: nat): (r: IndexOutcome)
    ensures r.Listed? ==> |r.entries| <= cap
    ensures r.Listed? && r.entries != [] && 0 < L.mdataSize ==>
              file.Some? && HDR + L.mdataSize <= |file.value| && r.entries[0] == L.decodeMdata(file.value[HDR..HDR + L.mdataSize])
  {
    match file
    case None => Listed([])
    case Some(f) =>
      var h := ReadAt(f, 0, HDR);
      if |h| != HDR then Listed([])
      else if MagicNe(h, DefaultMagicNum()) then Listed([])
      else
        ScanFirst(L, f, HDR, cap);
        Scan(L, f, HDR, cap)
  }

  /** A non-empty scan starts with the entry whose bytes are at `pos`. */
  lemma ScanFirst(L: Layout, file: seq<byte>, pos: nat, room: nat)
    ensures Scan(L, file, pos, room).Listed? && Scan(L, file, pos, room).entries != [] && 0 < L.mdataSize ==>
              pos + L.mdataSize <= |file| && Scan(L, file, pos, room).entries[0] == L.decodeMdata(file[pos..pos + L.mdataSize])
  {
  }

  /** A file that does not open, or does not start with "RECK", has an empty index. */
  lemma Rejected(L: Layout, file: Option<seq<byte>>, cap: nat)
    requires file.None? || |file.value| < HDR || file.value[..HDR] != RECK
    ensures ReadIndexSpec(L, file, cap) == Listed([])
  {
    if file.Some? && HDR <= |file.value| {
      var h: Magic := ReadAt(file.value, 0, HDR);
      MagicComparison(h, DefaultMagicNum());
    }
  }

  /** A file that starts with "RECK" is scanned from just after its header. */
  lemma Accepted(L: Layout, file: seq<byte>, cap: nat)
    requires HDR <= |file| && file[..HDR] == RECK
    ensures ReadIndexSpec(L, Some(file), cap) == Scan(L, file, HDR, cap)
  {
    var h: Magic := ReadAt(file, 0, HDR);
    MagicComparison(h, DefaultMagicNum());
  }

  /** `read_serialized_mdata` step by step. */
  method ReadSerializedMdata(L: Layout, file: Option<seq<byte>>, cap: nat) returns (r: IndexOutcome)
    ensures r == ReadIndexSpec(L, file, cap)
  {
    if file.None? {
      return Listed([]);
    }
    var f := file.value;
    var h := ReadAt(f, 0, HDR);
    if |h| != HDR {
      return Listed([]);
    }
    if MagicNe(h, DefaultMagicNum()) {
      return Listed([]);
    }
    var v: seq<Mdata> := [];
    var pos := HDR;
    while true
      invariant |v| <= cap
      invariant Scan(L, f, HDR, cap) == Prefixed(v, Scan(L, f, pos, cap - |v|))
      decreases cap - |v|
    {
      var b := ReadAt(f, pos, L.mdataSize);
      if |b| != L.mdataSize {
        break;
      }
      var md := L.decodeMdata(b);
      pos := NextPos(md, pos, L.mdataSize);
      if |v| == cap {
        return OutOfMemory;
      }
      ScanStep(L, f, pos, cap - |v|, v, md);
      v := v + [md];
    }
    return Listed(v);
  }

  /** One pass of the loop moves an entry from the scan to the vector. */
  lemma ScanStep(L: Layout, f: seq<byte>, next: nat, room: nat, v: seq<Mdata>, md: Mdata)
    requires 0 < room
    ensures Prefixed(v, Prefixed([md], Scan(L, f, next, room - 1))) == Prefixed(v + [md], Scan(L, f, next, room - 1))
  {
    match Scan(L, f, next, room - 1)
    case OutOfMemory =>
    case Listed(rest) =>
      assert v + ([md] + rest) == v + [md] + rest;
  }

  // ---------------------------------------------------------------------
  // Reading back what the dump wrote

  /** Scanning the image of records read back as written gives their index
      entries, in order, and stops at the end of the file. */
  lemma {:induction false} ScanImage(L: Layout, file: seq<byte>, pos: nat, rs: seq<Record>, room: nat)
    requires ValidLayout(L) && Announced(rs)
    requires pos <= |file| <= OFF_T_MAX && file[pos..] == Image(L, pos, rs)
    requires |rs| <= room
    ensures Scan(L, file, pos, room) == Listed(Entries(L, pos, rs))
    decreases |rs|
  {
    if rs == [] {
      assert |ReadAt(file, pos, L.mdataSize)| == 0;
    } else {
      var first := EntryBytes(L, pos, rs[0]);
      var next := pos + |first|;
      var md := EntryOf(L, pos, rs[0].kind, rs[0].size);
      EntryLength(L, pos, rs[0]);
      assert file[pos..next] == first by {
        assert file[pos..][..|first|] == first;
      }
      assert file[next..] == Image(L, next, rs[1..]) by {
        assert file[next..] == file[pos..][|first|..];
      }
      ReadEntry(L, file, pos, rs[0]);
      assert Announced(rs[1..]) by {
        forall i | 0 <= i < |rs[1..]| ensures rs[1..][i].size == |rs[1..][i].payload| {
          assert rs[1..][i] == rs[i + 1];
        }
      }
      ScanImage(L, file, next, rs[1..], room - 1);
      assert Scan(L, file, pos, room) == Prefixed([md], Scan(L, file, next, room - 1));
    }
  }

  /** The entry of a record read at its position decodes as written and
      sends the scan to just past its payload. */
  lemma ReadEntry(L: Layout, file: seq<byte>, pos: nat, r: Record)
    requires ValidLayout(L) && r.size == |r.payload|
    requires pos + |EntryBytes(L, pos, r)| <= |file| <= OFF_T_MAX
    requires file[pos..pos + |EntryBytes(L, pos, r)|] == EntryBytes(L, pos, r)
    ensures ReadAt(file, pos, L.mdataSize) == L.encodeMdata(EntryOf(L, pos, r.kind, r.size))
    ensures L.decodeMdata(ReadAt(file, pos, L.mdataSize)) == EntryOf(L, pos, r.kind, r.size)
    ensures NextPos(EntryOf(L, pos, r.kind, r.size), pos, L.mdataSize) == pos + |EntryBytes(L, pos, r)|
  {
    var md := EntryOf(L, pos, r.kind, r.size);
    var e := L.encodeMdata(md);
    EntryLength(L, pos, r);
    assert |e| == L.mdataSize;
    assert file[pos..pos + L.mdataSize] == file[pos..pos + |EntryBytes(L, pos, r)|][..L.mdataSize];
  }

  /** A file holding the header and the image of records whose sizes are
      their payloads', within `off_t`: its index is the records' entries. */
  lemma ReadImage(L: Layout, rs: seq<Record>, cap: nat)
    requires ValidLayout(L) && Announced(rs)
    requires HDR + |Image(L, HDR, rs)| <= OFF_T_MAX && |rs| <= cap
    ensures ReadIndexSpec(L, Some(RECK + Image(L, HDR, rs)), cap) == Listed(Entries(L, HDR, rs))
  {
    var file := RECK + Image(L, HDR, rs);
    assert file[..HDR] == RECK;
    Accepted(L, file, cap);
    assert file[HDR..] == Image(L, HDR, rs);
    ScanImage(L, file, HDR, rs, cap);
  }
}
