/** The byte layout of a checkpoint file (src/serializer.cpp): a four-byte
    header, then one index entry per record, each followed at once by the
    record's payload. The native sizes and byte images of `mdata` and
    `memory_map` are not fixed by the program, so they are parameters. */
module Serialized {
  import opened Common
  import opened Maps
  import opened Format

  /** The sizes of the structs the file holds, and the byte images the
      program writes and reads back with `write(fd, &x, sizeof(x))` and
      `read(fd, &x, sizeof(x))`. */
  datatype Layout = Layout(
    mdataSize: nat,
    regsSize: nat,
    fpregsSize: nat,
    mapSize: nat,
    encodeMdata: Mdata -> seq<byte>,
    decodeMdata: seq<byte> -> Mdata,
    encodeMap: MemoryMap -> seq<byte>,
    decodeMap: seq<byte> -> MemoryMap)

  /** The images have the struct sizes, an index entry whose type is one
      of the three enumerators reads back as written, and so does every
      region record. */
  ghost predicate ValidLayout(L: Layout)
  {
    && 0 < L.mdataSize
    && (forall md: Mdata :: 0 <= md.kind < 3 ==> |L.encodeMdata(md)| == L.mdataSize && L.decodeMdata(L.encodeMdata(md)) == md)
    && (forall m: MemoryMap :: |L.encodeMap(m)| == L.mapSize && L.decodeMap(L.encodeMap(m)) == m)
  }

  /** One record as `dump_serialized_file` writes it: the type of its
      entry, the size the entry announces, and the bytes that follow. */
  datatype Record = Record(kind: MdataType, size: nat, payload: seq<byte>)

  /** The index entry written at file position `at`: its payload starts
      `sizeof(mdata)` further on; the sum is taken in `size_t`. */
  function EntryOf(L: Layout, at: nat, kind: MdataType, size: nat): (md: Mdata)
    ensures 0 <= md.kind < 3 && TypeOf(md.kind) == Some(kind)
    ensures at + L.mdataSize < ULONG_MOD ==> md.offset == at + L.mdataSize
    ensures size < ULONG_MOD ==> md.size == size
  {
    TypeOfCode(kind, kind);
    Mdata(Code(kind), (at + L.mdataSize) % ULONG_MOD, size % ULONG_MOD)
  }

  /** A record written at `at`: its entry, then its payload. */
  function EntryBytes(L: Layout, at: nat, r: Record): seq<byte>
  {
    L.encodeMdata(EntryOf(L, at, r.kind, r.size)) + r.payload
  }

  /** The records `rs` written one after the other from position `pos` on. */
  function Image(L: Layout, pos: nat, rs: seq<Record>): seq<byte>
    decreases |rs|
  {
    if rs == [] then []
    else
      var first := EntryBytes(L, pos, rs[0]);
      first + Image(L, pos + |first|, rs[1..])
  }

  /** The index entries of those records. */
  function Entries(L: Layout, pos: nat, rs: seq<Record>): seq<Mdata>
    decreases |rs|
  {
    if rs == [] then []
    else [EntryOf(L, pos, rs[0].kind, rs[0].size)] + Entries(L, pos + |EntryBytes(L, pos, rs[0])|, rs[1..])
  }

  /** Appending a record appends its bytes at the end of the image. */
  lemma {:induction false} ImageSnoc(L: Layout, pos: nat, rs: seq<Record>, r: Record)
    ensures Image(L, pos, rs + [r]) == Image(L, pos, rs) + EntryBytes(L, pos + |Image(L, pos, rs)|, r)
    decreases |rs|
  {
    if rs != [] {
      var first := EntryBytes(L, pos, rs[0]);
      var rest := Image(L, pos + |first|, rs[1..]);
      assert (rs + [r])[0] == rs[0] && (rs + [r])[1..] == rs[1..] + [r];
      ImageSnoc(L, pos + |first|, rs[1..], r);
      assert Image(L, pos, rs) == first + rest;
      assert Image(L, pos, rs + [r]) == first + (rest + EntryBytes(L, pos + |first| + |rest|, r));
    }
  }

  /** ... and its index entry at the end of the entries. */
  lemma {:induction false} EntriesSnoc(L: Layout, pos: nat, rs: seq<Record>, r: Record)
    ensures Entries(L, pos, rs + [r]) == Entries(L, pos, rs) + [EntryOf(L, pos + |Image(L, pos, rs)|, r.kind, r.size)]
    decreases |rs|
  {
    if rs != [] {
      var first := EntryBytes(L, pos, rs[0]);
      assert (rs + [r])[0] == rs[0] && (rs + [r])[1..] == rs[1..] + [r];
      EntriesSnoc(L, pos + |first|, rs[1..], r);
    }
  }

  /** With the struct sizes of a valid layout, a record takes
      `sizeof(mdata)` bytes plus its payload. */
  lemma EntryLength(L: Layout, at: nat, r: Record)
    requires ValidLayout(L)
    ensures |EntryBytes(L, at, r)| == L.mdataSize + |r.payload|
  {
    var md := EntryOf(L, at, r.kind, r.size);
    assert 0 <= md.kind < 3;
  }

  /** Every record announces the size of its own payload. */
  predicate Announced(rs: seq<Record>)
  {
    forall i :: 0 <= i < |rs| ==> rs[i].size == |rs[i].payload|
  }

  /** The index entries of an image that stays within `off_t`: each
      payload starts right after its entry, the payloads follow one another
      in file order, and none overlaps another entry or payload. */
  lemma {:induction false} EntriesSpans(L: Layout, pos: nat, rs: seq<Record>)
    requires ValidLayout(L) && Announced(rs)
    requires pos + |Image(L, pos, rs)| <= OFF_T_MAX
    ensures |Entries(L, pos, rs)| == |rs|
    ensures forall i :: 0 <= i < |rs| ==>
              pos + L.mdataSize <= Entries(L, pos, rs)[i].offset &&
              Entries(L, pos, rs)[i].offset + Entries(L, pos, rs)[i].size <= pos + |Image(L, pos, rs)| &&
              Entries(L, pos, rs)[i].size == |rs[i].payload| &&
              TypeOf(Entries(L, pos, rs)[i].kind) == Some(rs[i].kind)
    ensures forall i, j :: 0 <= i < j < |rs| ==>
              Entries(L, pos, rs)[i].offset + Entries(L, pos, rs)[i].size + L.mdataSize <= Entries(L, pos, rs)[j].offset
    decreases |rs|
  {
    if rs != [] {
      var first := EntryBytes(L, pos, rs[0]);
      var next := pos + |first|;
      EntryLength(L, pos, rs[0]);
      assert Announced(rs[1..]) by {
        forall i | 0 <= i < |rs[1..]| ensures rs[1..][i].size == |rs[1..][i].payload| {
          assert rs[1..][i] == rs[i + 1];
        }
      }
      EntriesSpans(L, next, rs[1..]);
      var es := Entries(L, pos, rs);
      var tail := Entries(L, next, rs[1..]);
      assert es == [EntryOf(L, pos, rs[0].kind, rs[0].size)] + tail;
      forall i | 0 < i < |rs|
        ensures es[i] == tail[i - 1] && rs[i] == rs[1..][i - 1]
      {
      }
    }
  }

  /** What `filesystem::read` gives when asked for `n` bytes at position
      `pos` of a regular file: the bytes up to `n` that the file still
      has, none past its end. */
  function ReadAt(file: seq<byte>, pos: nat, n: nat): (r: seq<byte>)
    ensures |r| <= n
    ensures pos + n <= |file| ==> r == file[pos..pos + n]
    ensures |r| == n && 0 < n ==> pos + n <= |file|
  {
    if |file| <= pos then []
    else if pos + n <= |file| then file[pos..pos + n]
    else file[pos..]
  }
}
