/** `serializer::dump_serialized_file` (src/serializer.cpp): the header,
    then an index entry and payload per register set of every task, per
    floating-point register set, and per memory region, each written with
    `filesystem::write` at the current end of the file. What the kernel
    answers (the open, each write, the remote reads) and what the task
    controller and the maps parser return are given. */
module DumpFile {
  import opened Common
  import opened Maps
  import opened MapsParser
  import opened Format
  import opened Serialized

  // ---------------------------------------------------------------------
  // Writing to the file

  /** The checkpoint file while it is written: its bytes so far (it was
      opened with `O_TRUNC`, so the position is its length), how many
      `filesystem::write` calls were made, what the last one returned, and
      whether it wrote everything it was asked to. */
  datatype Writer = Writer(file: seq<byte>, calls: nat, ret: int, ok: bool)

  /** How many bytes a write that reported `r` for `n` bytes appended. */
  function Written(r: int, n: nat): (k: nat)
    ensures k <= n
    ensures r == n ==> k == n
    ensures r <= 0 ==> k == 0
  {
    if r <= 0 then 0 else if r < n then r else n
  }

  /** One `filesystem::write(fd, data, n)`: the `w.calls`-th call returns
      `write(w.calls, n)`; the bytes it reports go to the end of the file. */
  function Put(w: Writer, data: seq<byte>, write: (nat, nat) -> int): (w': Writer)
    ensures w'.calls == w.calls + 1
    ensures |w.file| <= |w'.file| <= |w.file| + |data| && w'.file[..|w.file|] == w.file
    ensures w'.ok ==> w'.file == w.file + data
  {
    var r := write(w.calls, |data|);
    Writer(w.file + data[..Written(r, |data|)], w.calls + 1, r, r == |data|)
  }

  /** Every write writes all it is asked to. */
  ghost predicate CompleteWrites(write: (nat, nat) -> int)
  {
    forall k: nat, n: nat :: write(k, n) == n
  }

  /** A complete write appends all its bytes and reports their number. */
  lemma PutComplete(w: Writer, data: seq<byte>, write: (nat, nat) -> int)
    requires CompleteWrites(write)
    ensures Put(w, data, write) == Writer(w.file + data, w.calls + 1, |data|, true)
  {
    assert write(w.calls, |data|) == |data|;
    assert data[..|data|] == data;
  }

  /** An index entry for `r` at the current end of the file, then, once
      that is written whole, the payload of `r`. */
  function PutRecord(L: Layout, w: Writer, r: Record, write: (nat, nat) -> int): Writer
  {
    var a := Put(w, L.encodeMdata(EntryOf(L, |w.file|, r.kind, r.size)), write);
    if a.ok then Put(a, r.payload, write) else a
  }

  /** A record written at the end of a file holding the header and the
      image of `rs` makes it the header and the image of `rs + [r]`. */
  lemma SnocFile(L: Layout, file: seq<byte>, rs: seq<Record>, r: Record)
    requires file == RECK + Image(L, HDR, rs)
    ensures file + EntryBytes(L, |file|, r) == RECK + Image(L, HDR, rs + [r])
  {
    ImageSnoc(L, HDR, rs, r);
  }

  /** With complete writes, a record is appended whole. */
  lemma PutRecordLayout(L: Layout, w: Writer, r: Record, write: (nat, nat) -> int)
    requires CompleteWrites(write)
    ensures PutRecord(L, w, r, write).ok
    ensures PutRecord(L, w, r, write).file == w.file + EntryBytes(L, |w.file|, r)
    ensures PutRecord(L, w, r, write).ret == |r.payload|
  {
    var md := L.encodeMdata(EntryOf(L, |w.file|, r.kind, r.size));
    PutComplete(w, md, write);
    PutComplete(Put(w, md, write), r.payload, write);
    assert w.file + md + r.payload == w.file + (md + r.payload);
  }

  // ---------------------------------------------------------------------
  // Register sets

  /** The record of one register snapshot: a `user_regs_struct` or a
      `user_fpregs_struct`, announced with the size of its struct. */
  function SnapshotRecord(L: Layout, t: MdataType, s: seq<byte>): Record
  {
    Record(t, if t == Regs then L.regsSize else L.fpregsSize, s)
  }

  /** The records of a vector of snapshots, in vector order. */
  function SnapshotRecords(L: Layout, t: MdataType, snaps: seq<seq<byte>>): (rs: seq<Record>)
    ensures |rs| == |snaps|
    ensures forall i :: 0 <= i < |snaps| ==> rs[i] == SnapshotRecord(L, t, snaps[i])
    decreases |snaps|
  {
    if snaps == [] then []
    else SnapshotRecords(L, t, snaps[..|snaps| - 1]) + [SnapshotRecord(L, t, snaps[|snaps| - 1])]
  }

  /** The loop over the snapshots: an entry and a payload for each, until a
      write comes up short. */
  function Snapshots(L: Layout, w: Writer, t: MdataType, snaps: seq<seq<byte>>, write: (nat, nat) -> int): Writer
    decreases |snaps|
  {
    if snaps == [] then w
    else
      var v := Snapshots(L, w, t, snaps[..|snaps| - 1], write);
      if v.ok then PutRecord(L, v, SnapshotRecord(L, t, snaps[|snaps| - 1]), write) else v
  }

  /** Once a write has failed, the rest of the loop writes nothing more. */
  lemma {:induction false} SnapshotsStuck(L: Layout, w: Writer, t: MdataType, snaps: seq<seq<byte>>, i: nat, write: (nat, nat) -> int)
    requires i <= |snaps| && !Snapshots(L, w, t, snaps[..i], write).ok
    ensures Snapshots(L, w, t, snaps, write) == Snapshots(L, w, t, snaps[..i], write)
    decreases |snaps| - i
  {
    if i < |snaps| {
      assert snaps[..i + 1][..i] == snaps[..i];
      SnapshotsStuck(L, w, t, snaps, i + 1, write);
    } else {
      assert snaps[..i] == snaps;
    }
  }

  /** With complete writes, the snapshots' records follow the image so far,
      and the status is the last payload's length. */
  lemma {:induction false} SnapshotsLayout(L: Layout, w: Writer, t: MdataType, snaps: seq<seq<byte>>, write: (nat, nat) -> int, rs: seq<Record>)
    requires CompleteWrites(write)
    requires w.ok && w.file == RECK + Image(L, HDR, rs)
    ensures Snapshots(L, w, t, snaps, write).ok
    ensures Snapshots(L, w, t, snaps, write).file == RECK + Image(L, HDR, rs + SnapshotRecords(L, t, snaps))
    ensures snaps != [] ==> Snapshots(L, w, t, snaps, write).ret == |snaps[|snaps| - 1]|
    decreases |snaps|
  {
    if snaps == [] {
      assert rs + SnapshotRecords(L, t, snaps) == rs;
    } else {
      var init := snaps[..|snaps| - 1];
      var r := SnapshotRecord(L, t, snaps[|snaps| - 1]);
      SnapshotsLayout(L, w, t, init, write, rs);
      var v := Snapshots(L, w, t, init, write);
      PutRecordLayout(L, v, r, write);
      SnocFile(L, v.file, rs + SnapshotRecords(L, t, init), r);
      assert rs + SnapshotRecords(L, t, snaps) == rs + SnapshotRecords(L, t, init) + [r];
    }
  }

  /** The two `for` loops of `dump_serialized_file` over `v_regs` and
      `v_fpregs`: the position is queried, the entry written, then the
      snapshot; the loop ends at the first short write. */
  method WriteSnapshots(L: Layout, w: Writer, t: MdataType, snaps: seq<seq<byte>>, write: (nat, nat) -> int)
    returns (v: Writer)
    ensures v == Snapshots(L, w, t, snaps, write)
  {
    v := w;
    var i := 0;
    while i < |snaps| && v.ok
      invariant 0 <= i <= |snaps|
      invariant v == Snapshots(L, w, t, snaps[..i], write)
    {
      assert snaps[..i + 1][..i] == snaps[..i];
      var r := SnapshotRecord(L, t, snaps[i]);
      var offset := |v.file|;
      v := Put(v, L.encodeMdata(EntryOf(L, offset, r.kind, r.size)), write);
      if v.ok {
        v := Put(v, snaps[i], write);
      }
      i := i + 1;
    }
    if i < |snaps| {
      SnapshotsStuck(L, w, t, snaps, i, write);
    } else {
      assert snaps[..i] == snaps;
    }
  }

  // ---------------------------------------------------------------------
  // Memory regions

  /** `strstr(map.pathname, "[vdso]")` or `strstr(map.pathname, "[vvar]")`:
      a region the dump leaves out. */
  predicate Skipped(m: MemoryMap)
  {
    Contains(CStr(m.pathname), "[vdso]") || Contains(CStr(m.pathname), "[vvar]")
  }

  /** The regions the dump writes, in `get_maps` order. */
  function Kept(maps: seq<MemoryMap>): (k: seq<MemoryMap>)
    ensures |k| <= |maps|
    decreases |maps|
  {
    if maps == [] then []
    else if Skipped(maps[|maps| - 1]) then Kept(maps[..|maps| - 1])
    else Kept(maps[..|maps| - 1]) + [maps[|maps| - 1]]
  }

  /** A region is written exactly when its pathname names neither the vDSO
      nor its data page. */
  lemma {:induction false} KeptSpec(maps: seq<MemoryMap>)
    ensures forall m :: m in Kept(maps) <==> m in maps && !Skipped(m)
    decreases |maps|
  {
    if maps != [] {
      var init := maps[..|maps| - 1];
      KeptSpec(init);
      assert maps == init + [maps[|maps| - 1]];
    }
  }

  /** The filter keeps the order: the regions of two stretches of the table
      come out one stretch after the other. */
  lemma {:induction false} KeptAppend(a: seq<MemoryMap>, b: seq<MemoryMap>)
    ensures Kept(a + b) == Kept(a) + Kept(b)
    decreases |b|
  {
    if b != [] {
      var init := b[..|b| - 1];
      assert (a + b)[..|a + b| - 1] == a + init;
      assert (a + b)[|a + b| - 1] == b[|b| - 1];
      KeptAppend(a, init);
    } else {
      assert a + b == a;
    }
  }

  /** `std::vector<char>::resize(n)`: the first `n` bytes kept, new bytes zero. */
  function Resize(buf: seq<byte>, n: nat): (r: seq<byte>)
    ensures |r| == n
    ensures forall i :: 0 <= i < n ==> r[i] == if i < |buf| then buf[i] else 0
  {
    if n <= |buf| then buf[..n] else buf + seq(n - |buf|, _ => 0)
  }

  /** What a remote read of a region returns, and the bytes it delivers. */
  datatype RemoteRead = RemoteRead(ret: int, bytes: seq<byte>)

  /** A buffer after the remote read delivered `b` into it. */
  function Overlay(buf: seq<byte>, b: seq<byte>): (r: seq<byte>)
    ensures |r| == |buf|
    ensures |buf| <= |b| ==> r == b[..|buf|]
  {
    if |buf| <= |b| then b[..|buf|] else b + buf[|b|..]
  }

  /** The bytes written for region `m` when the buffer held `buf`: for a
      readable region, what was read from the process; for any other, the
      reused buffer resized to the region's size. */
  function Content(buf: seq<byte>, m: MemoryMap, remote: MemoryMap -> RemoteRead): (c: seq<byte>)
    ensures |c| == Size(m)
    ensures !m.prot.read ==> c == Resize(buf, Size(m))
    ensures m.prot.read && Size(m) <= |remote(m).bytes| ==> c == remote(m).bytes[..Size(m)]
  {
    var b := Resize(buf, Size(m));
    if m.prot.read then Overlay(b, remote(m).bytes) else b
  }

  /** The buffer once the regions `maps` have been written. */
  function Buffer(maps: seq<MemoryMap>, remote: MemoryMap -> RemoteRead): seq<byte>
    decreases |maps|
  {
    if maps == [] then []
    else
      var m := maps[|maps| - 1];
      if Skipped(m) then Buffer(maps[..|maps| - 1], remote)
      else Content(Buffer(maps[..|maps| - 1], remote), m, remote)
  }

  /** The record of a region: its size is `sizeof(memory_map) + map.size()`
      and its payload the `memory_map` struct followed by the content. */
  function MapRecord(L: Layout, m: MemoryMap, content: seq<byte>): Record
  {
    Record(MemoryMapEntry, L.mapSize + Size(m), L.encodeMap(m) + content)
  }

  /** The bytes of a region record after its `memory_map` struct. */
  function RegionBytes(L: Layout, r: Record): seq<byte>
  {
    if L.mapSize <= |r.payload| then r.payload[L.mapSize..] else []
  }

  /** The records of the regions, in table order. */
  function MapRecords(L: Layout, maps: seq<MemoryMap>, remote: MemoryMap -> RemoteRead): seq<Record>
    decreases |maps|
  {
    if maps == [] then []
    else
      var init := maps[..|maps| - 1];
      var m := maps[|maps| - 1];
      if Skipped(m) then MapRecords(L, init, remote)
      else MapRecords(L, init, remote) + [MapRecord(L, m, Content(Buffer(init, remote), m, remote))]
  }

  /** Region records match the kept regions one for one: each announces
      `sizeof(memory_map)` plus the region's size, and carries exactly that
      many bytes, the region's record first. */
  lemma {:induction false} MapRecordsShape(L: Layout, maps: seq<MemoryMap>, remote: MemoryMap -> RemoteRead)
    requires ValidLayout(L)
    ensures |MapRecords(L, maps, remote)| == |Kept(maps)|
    ensures forall i :: 0 <= i < |Kept(maps)| ==>
              MapRecords(L, maps, remote)[i].kind == MemoryMapEntry &&
              MapRecords(L, maps, remote)[i].size == L.mapSize + Size(Kept(maps)[i]) &&
              |MapRecords(L, maps, remote)[i].payload| == MapRecords(L, maps, remote)[i].size &&
              MapRecords(L, maps, remote)[i].payload[..L.mapSize] == L.encodeMap(Kept(maps)[i])
    decreases |maps|
  {
    if maps != [] {
      MapRecordsShape(L, maps[..|maps| - 1], remote);
    }
  }

  /** The content of an unreadable region is not zero-filled: it is the
      previous region's content (or nothing, for the first) cut or
      zero-extended to this region's size. */
  lemma {:induction false} StaleContent(L: Layout, maps: seq<MemoryMap>, remote: MemoryMap -> RemoteRead, i: nat)
    requires ValidLayout(L)
    requires i < |Kept(maps)| && !Kept(maps)[i].prot.read
    ensures |MapRecords(L, maps, remote)| == |Kept(maps)|
    ensures RegionBytes(L, MapRecords(L, maps, remote)[i]) ==
              Resize(if i == 0 then [] else RegionBytes(L, MapRecords(L, maps, remote)[i - 1]), Size(Kept(maps)[i]))
    decreases |maps|
  {
    MapRecordsShape(L, maps, remote);
    var init := maps[..|maps| - 1];
    var m := maps[|maps| - 1];
    MapRecordsShape(L, init, remote);
    if Skipped(m) {
      StaleContent(L, init, remote, i);
    } else if i < |Kept(init)| {
      StaleContent(L, init, remote, i);
      assert MapRecords(L, maps, remote)[i] == MapRecords(L, init, remote)[i];
      assert i > 0 ==> MapRecords(L, maps, remote)[i - 1] == MapRecords(L, init, remote)[i - 1];
    } else {
      BufferIsLastContent(L, init, remote);
      var c := Content(Buffer(init, remote), m, remote);
      RegionBytesOf(L, m, c);
      assert MapRecords(L, maps, remote)[i] == MapRecord(L, m, c);
      assert i > 0 ==> MapRecords(L, maps, remote)[i - 1] == MapRecords(L, init, remote)[i - 1];
    }
  }

  /** The content of a readable region is what the remote read delivered,
      cut to the region's size. */
  lemma {:induction false} ReadableContent(L: Layout, maps: seq<MemoryMap>, remote: MemoryMap -> RemoteRead, i: nat)
    requires ValidLayout(L)
    requires i < |Kept(maps)| && Kept(maps)[i].prot.read && Size(Kept(maps)[i]) <= |remote(Kept(maps)[i]).bytes|
    ensures |MapRecords(L, maps, remote)| == |Kept(maps)|
    ensures RegionBytes(L, MapRecords(L, maps, remote)[i]) == remote(Kept(maps)[i]).bytes[..Size(Kept(maps)[i])]
    decreases |maps|
  {
    MapRecordsShape(L, maps, remote);
    var init := maps[..|maps| - 1];
    var m := maps[|maps| - 1];
    MapRecordsShape(L, init, remote);
    if Skipped(m) {
      ReadableContent(L, init, remote, i);
    } else if i < |Kept(init)| {
      ReadableContent(L, init, remote, i);
      assert MapRecords(L, maps, remote)[i] == MapRecords(L, init, remote)[i];
    } else {
      var c := Content(Buffer(init, remote), m, remote);
      RegionBytesOf(L, m, c);
      assert MapRecords(L, maps, remote)[i] == MapRecord(L, m, c);
    }
  }

  /** The buffer holds the last kept region's content, or nothing. */
  lemma {:induction false} BufferIsLastContent(L: Layout, maps: seq<MemoryMap>, remote: MemoryMap -> RemoteRead)
    requires ValidLayout(L)
    ensures |MapRecords(L, maps, remote)| == |Kept(maps)|
    ensures Buffer(maps, remote) ==
              if Kept(maps) == [] then [] else RegionBytes(L, MapRecords(L, maps, remote)[|Kept(maps)| - 1])
    decreases |maps|
  {
    MapRecordsShape(L, maps, remote);
    if maps != [] {
      var init := maps[..|maps| - 1];
      var m := maps[|maps| - 1];
      BufferIsLastContent(L, init, remote);
      if !Skipped(m) {
        var c := Content(Buffer(init, remote), m, remote);
        RegionBytesOf(L, m, c);
        assert MapRecords(L, maps, remote)[|Kept(maps)| - 1] == MapRecord(L, m, c);
      }
    }
  }

  /** The content of a region record is what follows its `memory_map`. */
  lemma RegionBytesOf(L: Layout, m: MemoryMap, c: seq<byte>)
    requires ValidLayout(L)
    ensures RegionBytes(L, MapRecord(L, m, c)) == c
  {
    assert |L.encodeMap(m)| == L.mapSize;
    assert (L.encodeMap(m) + c)[L.mapSize..] == c;
  }

  /** `std::vector<char>::max_size()` on a 64-bit target: `resize` past it
      throws `std::length_error`. */
  const VECTOR_MAX: int := 0x7fff_ffff_ffff_ffff

  /** Where the region loop is: the file so far, the reused buffer, and
      whether `resize` threw, which stops the loop and the dump. */
  datatype MapsState = MapsState(w: Writer, buffer: seq<byte>, threw: bool)

  /** One pass of the region loop. */
  function MapStep(L: Layout, st: MapsState, m: MemoryMap, remote: MemoryMap -> RemoteRead, write: (nat, nat) -> int): MapsState
  {
    if Skipped(m) then st else WriteRegion(L, st, m, remote, write)
  }

  /** A region that is not skipped: its entry, its `memory_map`, then its
      content, each written only if everything before it went through; a
      region too large for the buffer throws once its `memory_map` is out (the `std::length_error` past
      `max_size()`; a `std::bad_alloc` below it is not modelled).
      The file only grows, by at most the region's record; a throw means
      the region did not fit; a pass that gets through leaves the region's
      content in the buffer. */
  function WriteRegion(L: Layout, st: MapsState, m: MemoryMap, remote: MemoryMap -> RemoteRead, write: (nat, nat) -> int): (r: MapsState)
    ensures st.w.file <= r.w.file
    ensures |r.w.file| <= |st.w.file| + |L.encodeMdata(EntryOf(L, |st.w.file|, MemoryMapEntry, L.mapSize + Size(m)))| + |L.encodeMap(m)| + Size(m)
    ensures r.threw ==> Size(m) > VECTOR_MAX && !r.w.ok
    ensures r.w.ok ==> !r.threw && |r.buffer| == Size(m)
  {
      var a := Put(st.w, L.encodeMdata(EntryOf(L, |st.w.file|, MemoryMapEntry, L.mapSize + Size(m))), write);
      if !a.ok then MapsState(a, st.buffer, false)
      else
        var b := Put(a, L.encodeMap(m), write);
        if !b.ok then MapsState(b, st.buffer, false)
        else if Size(m) > VECTOR_MAX then MapsState(b.(ok := false), st.buffer, true)
        else
          var buf := Resize(st.buffer, Size(m));
          if m.prot.read && remote(m).ret != Size(m) then MapsState(b.(ret := remote(m).ret, ok := false), buf, false)
          else
            var c := if m.prot.read then Overlay(buf, remote(m).bytes) else buf;
            MapsState(Put(b, c, write), c, false)
  }

  /** The region loop over the table, until something fails. */
  function MapEntries(L: Layout, st: MapsState, maps: seq<MemoryMap>, remote: MemoryMap -> RemoteRead, write: (nat, nat) -> int): MapsState
    decreases |maps|
  {
    if maps == [] then st
    else
      var v := MapEntries(L, st, maps[..|maps| - 1], remote, write);
      if v.w.ok then MapStep(L, v, maps[|maps| - 1], remote, write) else v
  }

  lemma {:induction false} MapEntriesStuck(L: Layout, st: MapsState, maps: seq<MemoryMap>, i: nat, remote: MemoryMap -> RemoteRead, write: (nat, nat) -> int)
    requires i <= |maps| && !MapEntries(L, st, maps[..i], remote, write).w.ok
    ensures MapEntries(L, st, maps, remote, write) == MapEntries(L, st, maps[..i], remote, write)
    decreases |maps| - i
  {
    if i < |maps| {
      assert maps[..i + 1][..i] == maps[..i];
      MapEntriesStuck(L, st, maps, i + 1, remote, write);
    } else {
      assert maps[..i] == maps;
    }
  }

  /** Every readable region reads back whole. */
  ghost predicate CompleteReads(remote: MemoryMap -> RemoteRead)
  {
    forall m: MemoryMap :: m.prot.read ==> remote(m).ret == Size(m) && |remote(m).bytes| == Size(m)
  }

  /** Every region the dump keeps fits the buffer. */
  predicate Fits(maps: seq<MemoryMap>)
  {
    forall i :: 0 <= i < |maps| && !Skipped(maps[i]) ==> Size(maps[i]) <= VECTOR_MAX
  }

  /** With complete writes and reads and regions that fit the buffer, the
      region records follow the image so far, the buffer is as `Buffer`
      says, and the status is the size of the last region written. */
  lemma {:induction false} MapEntriesLayout(L: Layout, w: Writer, maps: seq<MemoryMap>, remote: MemoryMap -> RemoteRead, write: (nat, nat) -> int, rs: seq<Record>)
    requires CompleteWrites(write) && CompleteReads(remote) && Fits(maps)
    requires w.ok && w.file == RECK + Image(L, HDR, rs)
    ensures MapEntries(L, MapsState(w, [], false), maps, remote, write).w.ok
    ensures !MapEntries(L, MapsState(w, [], false), maps, remote, write).threw
    ensures MapEntries(L, MapsState(w, [], false), maps, remote, write).w.file == RECK + Image(L, HDR, rs + MapRecords(L, maps, remote))
    ensures MapEntries(L, MapsState(w, [], false), maps, remote, write).buffer == Buffer(maps, remote)
    ensures MapEntries(L, MapsState(w, [], false), maps, remote, write).w.ret ==
              if Kept(maps) == [] then w.ret else Size(Kept(maps)[|Kept(maps)| - 1])
    decreases |maps|
  {
    if maps == [] {
      assert rs + MapRecords(L, maps, remote) == rs;
    } else {
      var init := maps[..|maps| - 1];
      var m := maps[|maps| - 1];
      assert Fits(init) by {
        forall i | 0 <= i < |init| && !Skipped(init[i]) ensures Size(init[i]) <= VECTOR_MAX {
          assert init[i] == maps[i];
        }
      }
      MapEntriesLayout(L, w, init, remote, write, rs);
      var v := MapEntries(L, MapsState(w, [], false), init, remote, write);
      if !Skipped(m) {
        RegionLayout(L, v, m, remote, write);
        SnocFile(L, v.w.file, rs + MapRecords(L, init, remote), MapRecord(L, m, Content(Buffer(init, remote), m, remote)));
        assert rs + MapRecords(L, maps, remote) == rs + MapRecords(L, init, remote) + [MapRecord(L, m, Content(Buffer(init, remote), m, remote))];
      }
    }
  }

  /** With complete writes and a complete remote read, one kept region that
      fits the buffer appends its record and leaves its content in the
      buffer. */
  lemma RegionLayout(L: Layout, st: MapsState, m: MemoryMap, remote: MemoryMap -> RemoteRead, write: (nat, nat) -> int)
    requires CompleteWrites(write) && (m.prot.read ==> remote(m).ret == Size(m)) && st.w.ok && Size(m) <= VECTOR_MAX
    ensures WriteRegion(L, st, m, remote, write).w.ok && !WriteRegion(L, st, m, remote, write).threw
    ensures WriteRegion(L, st, m, remote, write).w.file == st.w.file + EntryBytes(L, |st.w.file|, MapRecord(L, m, Content(st.buffer, m, remote)))
    ensures WriteRegion(L, st, m, remote, write).buffer == Content(st.buffer, m, remote)
    ensures WriteRegion(L, st, m, remote, write).w.ret == Size(m)
  {
    var c := Content(st.buffer, m, remote);
    var md := L.encodeMdata(EntryOf(L, |st.w.file|, MemoryMapEntry, L.mapSize + Size(m)));
    RegionWrites(L, st, m, remote, write);
    assert st.w.file + md + L.encodeMap(m) + c == st.w.file + (md + (L.encodeMap(m) + c));
  }

  /** With complete writes and reads, a kept region that fits the buffer is
      three complete writes: its entry, its `memory_map` and its content. */
  lemma RegionWrites(L: Layout, st: MapsState, m: MemoryMap, remote: MemoryMap -> RemoteRead, write: (nat, nat) -> int)
    requires CompleteWrites(write) && (m.prot.read ==> remote(m).ret == Size(m)) && st.w.ok && Size(m) <= VECTOR_MAX
    ensures var md := L.encodeMdata(EntryOf(L, |st.w.file|, MemoryMapEntry, L.mapSize + Size(m)));
            var c := Content(st.buffer, m, remote);
            WriteRegion(L, st, m, remote, write) == MapsState(Writer(st.w.file + md + L.encodeMap(m) + c, st.w.calls + 3, Size(m), true), c, false)
  {
    var md := L.encodeMdata(EntryOf(L, |st.w.file|, MemoryMapEntry, L.mapSize + Size(m)));
    PutComplete(st.w, md, write);
    var a := Put(st.w, md, write);
    PutComplete(a, L.encodeMap(m), write);
    var b := Put(a, L.encodeMap(m), write);
    PutComplete(b, Content(st.buffer, m, remote), write);
  }

  /** With complete writes, a kept region too large for the buffer throws
      after its entry and its `memory_map` are in the file, leaving the
      buffer as it was. */
  lemma RegionThrows(L: Layout, st: MapsState, m: MemoryMap, remote: MemoryMap -> RemoteRead, write: (nat, nat) -> int)
    requires CompleteWrites(write) && st.w.ok && Size(m) > VECTOR_MAX
    ensures var r := WriteRegion(L, st, m, remote, write);
            && r.threw && !r.w.ok && r.buffer == st.buffer
            && r.w.file == st.w.file + L.encodeMdata(EntryOf(L, |st.w.file|, MemoryMapEntry, L.mapSize + Size(m))) + L.encodeMap(m)
  {
    var md := L.encodeMdata(EntryOf(L, |st.w.file|, MemoryMapEntry, L.mapSize + Size(m)));
    PutComplete(st.w, md, write);
    PutComplete(Put(st.w, md, write), L.encodeMap(m), write);
  }

  /** The `for` loop of `dump_serialized_file` over `v_maps`: skip the vDSO
      pages; write the entry and the `memory_map`; resize the buffer; fill
      it from the process if the region is readable; write it. */
  method WriteMaps(L: Layout, st0: MapsState, maps: seq<MemoryMap>, remote: MemoryMap -> RemoteRead, write: (nat, nat) -> int)
    returns (st: MapsState)
    ensures st == MapEntries(L, st0, maps, remote, write)
  {
    st := st0;
    var i := 0;
    while i < |maps| && st.w.ok
      invariant 0 <= i <= |maps|
      invariant st == MapEntries(L, st0, maps[..i], remote, write)
    {
      assert maps[..i + 1][..i] == maps[..i];
      if !Skipped(maps[i]) {
        st := WriteRegionStep(L, st, maps[i], remote, write);
      }
      i := i + 1;
    }
    if i < |maps| {
      MapEntriesStuck(L, st0, maps, i, remote, write);
    } else {
      assert maps[..i] == maps;
    }
  }

  /** The body of that loop for a region that is not skipped. */
  method WriteRegionStep(L: Layout, st: MapsState, m: MemoryMap, remote: MemoryMap -> RemoteRead, write: (nat, nat) -> int)
    returns (st': MapsState)
    ensures st' == WriteRegion(L, st, m, remote, write)
  {
    var offset := |st.w.file|;
    var w := Put(st.w, L.encodeMdata(EntryOf(L, offset, MemoryMapEntry, L.mapSize + Size(m))), write);
    var buffer := st.buffer;
    if w.ok {
      w := Put(w, L.encodeMap(m), write);
      if w.ok && Size(m) > VECTOR_MAX {
        return MapsState(w.(ok := false), buffer, true);
      }
      if w.ok {
        buffer := Resize(buffer, Size(m));
        if m.prot.read {
          var got := remote(m);
          if got.ret != Size(m) {
            w := w.(ret := got.ret, ok := false);
          } else {
            buffer := Overlay(buffer, got.bytes);
          }
        }
        if w.ok {
          w := Put(w, buffer, write);
        }
      }
    }
    st' := MapsState(w, buffer, false);
  }

  // ---------------------------------------------------------------------
  // The whole dump

  /** What the dump returns: its status and the file it left, or the
      exception `get_maps` or the buffer's `resize` threw, which leaves the
      dump with the file. */
  datatype DumpOutcome = Returned(ret: int, file: seq<byte>) | Threw(file: seq<byte>)

  /** `dump_serialized_file`, given the descriptor `open` returned, what
      `ptracer::init` returned, the snapshots `get_regs` and `get_fpregs`
      returned, the regions `get_maps` returned, and the kernel's answers. */
  function DumpSpec(L: Layout, openFd: int, initRet: int, regs: seq<seq<byte>>, fpregs: seq<seq<byte>>,
                    maps: MapsOutcome, remote: MemoryMap -> RemoteRead, write: (nat, nat) -> int): DumpOutcome
  {
    if openFd < 0 then Returned(openFd, [])
    else
      var h := Put(Writer([], 0, 0, true), RECK, write);
      if !h.ok then Returned(h.ret, h.file)
      else if initRet < 0 || regs == [] then Returned(initRet, h.file)
      else DumpTasks(L, h.(ret := initRet), regs, fpregs, maps, remote, write)
  }

  /** The rest of the dump once the task controller is attached and has
      register sets: the register sets, the floating-point sets (if there
      are any), then the regions. */
  function DumpTasks(L: Layout, w: Writer, regs: seq<seq<byte>>, fpregs: seq<seq<byte>>,
                     maps: MapsOutcome, remote: MemoryMap -> RemoteRead, write: (nat, nat) -> int): DumpOutcome
  {
    var a := Snapshots(L, w, Regs, regs, write);
    if !a.ok || fpregs == [] then Returned(a.ret, a.file)
    else
      var b := Snapshots(L, a, FpRegs, fpregs, write);
      if !b.ok then Returned(b.ret, b.file)
      else if maps.Threw? then DumpOutcome.Threw(b.file)
      else
        var c := MapEntries(L, MapsState(b, [], false), maps.maps, remote, write);
        if c.threw then DumpOutcome.Threw(c.w.file) else Returned(c.w.ret, c.w.file)
  }

  /** `dump_serialized_file` step by step. */
  method DumpSerializedFile(L: Layout, openFd: int, initRet: int, regs: seq<seq<byte>>, fpregs: seq<seq<byte>>,
                            maps: MapsOutcome, remote: MemoryMap -> RemoteRead, write: (nat, nat) -> int)
    returns (out: DumpOutcome)
    ensures out == DumpSpec(L, openFd, initRet, regs, fpregs, maps, remote, write)
  {
    if openFd < 0 {
      return Returned(openFd, []);
    }
    var w := Put(Writer([], 0, 0, true), RECK, write);
    if !w.ok {
      return Returned(w.ret, w.file);
    }
    var ret := initRet;
    if ret < 0 {
      return Returned(ret, w.file);
    }
    if regs == [] {
      return Returned(ret, w.file);
    }
    w := WriteSnapshots(L, w.(ret := ret), Regs, regs, write);
    if !w.ok {
      return Returned(w.ret, w.file);
    }
    if fpregs == [] {
      return Returned(w.ret, w.file);
    }
    w := WriteSnapshots(L, w, FpRegs, fpregs, write);
    if !w.ok {
      return Returned(w.ret, w.file);
    }
    if maps.Threw? {
      return DumpOutcome.Threw(w.file);
    }
    var st := WriteMaps(L, MapsState(w, [], false), maps.maps, remote, write);
    if st.threw {
      return DumpOutcome.Threw(st.w.file);
    }
    return Returned(st.w.ret, st.w.file);
  }

  // ---------------------------------------------------------------------
  // What a dump leaves

  /** The records of a complete dump, in the order they are written. */
  function Records(L: Layout, regs: seq<seq<byte>>, fpregs: seq<seq<byte>>, maps: seq<MemoryMap>, remote: MemoryMap -> RemoteRead): seq<Record>
  {
    SnapshotRecords(L, Regs, regs) + SnapshotRecords(L, FpRegs, fpregs) + MapRecords(L, maps, remote)
  }

  /** When every write and remote read is complete, the file is the header
      followed by the image of all records, register sets first, then the
      floating-point sets, then the kept regions; the status is the byte
      count of the last write, not 0.  (`DumpOversized` is the dump whose
      regions do not all fit the buffer.) */
  lemma DumpLayout(L: Layout, openFd: int, initRet: int, regs: seq<seq<byte>>, fpregs: seq<seq<byte>>,
                   maps: seq<MemoryMap>, remote: MemoryMap -> RemoteRead, write: (nat, nat) -> int)
    requires CompleteWrites(write) && CompleteReads(remote) && Fits(maps)
    requires 0 <= openFd && 0 <= initRet && regs != [] && fpregs != []
    ensures DumpSpec(L, openFd, initRet, regs, fpregs, Table(maps), remote, write) ==
              Returned(if Kept(maps) == [] then |fpregs[|fpregs| - 1]| else Size(Kept(maps)[|Kept(maps)| - 1]),
                       RECK + Image(L, HDR, Records(L, regs, fpregs, maps, remote)))
  {
    PutComplete(Writer([], 0, 0, true), RECK, write);
    TasksLayout(L, Put(Writer([], 0, 0, true), RECK, write).(ret := initRet), regs, fpregs, maps, remote, write);
  }

  /** The same, from the header on. */
  lemma TasksLayout(L: Layout, w: Writer, regs: seq<seq<byte>>, fpregs: seq<seq<byte>>,
                    maps: seq<MemoryMap>, remote: MemoryMap -> RemoteRead, write: (nat, nat) -> int)
    requires CompleteWrites(write) && CompleteReads(remote) && Fits(maps)
    requires w.ok && w.file == RECK && regs != [] && fpregs != []
    ensures DumpTasks(L, w, regs, fpregs, Table(maps), remote, write) ==
              Returned(if Kept(maps) == [] then |fpregs[|fpregs| - 1]| else Size(Kept(maps)[|Kept(maps)| - 1]),
                       RECK + Image(L, HDR, Records(L, regs, fpregs, maps, remote)))
  {
    SetsLayout(L, w, regs, fpregs, write);
    var b := Snapshots(L, Snapshots(L, w, Regs, regs, write), FpRegs, fpregs, write);
    MapEntriesLayout(L, b, maps, remote, write, SnapshotRecords(L, Regs, regs) + SnapshotRecords(L, FpRegs, fpregs));
  }

  /** From the header on, complete writes put the register sets and then
      the floating-point sets into the file. */
  lemma SetsLayout(L: Layout, w: Writer, regs: seq<seq<byte>>, fpregs: seq<seq<byte>>, write: (nat, nat) -> int)
    requires CompleteWrites(write) && w.ok && w.file == RECK
    ensures Snapshots(L, w, Regs, regs, write).ok
    ensures var b := Snapshots(L, Snapshots(L, w, Regs, regs, write), FpRegs, fpregs, write);
            b.ok && b.file == RECK + Image(L, HDR, SnapshotRecords(L, Regs, regs) + SnapshotRecords(L, FpRegs, fpregs))
  {
    var rsA := SnapshotRecords(L, Regs, regs);
    assert w.file == RECK + Image(L, HDR, []);
    SnapshotsLayout(L, w, Regs, regs, write, []);
    assert [] + rsA == rsA;
    SnapshotsLayout(L, Snapshots(L, w, Regs, regs, write), FpRegs, fpregs, write, rsA);
  }

  /** A kept region too large for the buffer makes the dump throw: with
      complete writes and reads, the file then holds the records of the
      sets and of the regions before it, that region's entry and its
      `memory_map`, and nothing of what follows. */
  lemma DumpOversized(L: Layout, openFd: int, initRet: int, regs: seq<seq<byte>>, fpregs: seq<seq<byte>>,
                      pre: seq<MemoryMap>, m: MemoryMap, post: seq<MemoryMap>, remote: MemoryMap -> RemoteRead, write: (nat, nat) -> int)
    requires CompleteWrites(write) && CompleteReads(remote)
    requires 0 <= openFd && 0 <= initRet && regs != [] && fpregs != []
    requires Fits(pre) && !Skipped(m) && Size(m) > VECTOR_MAX
    ensures var before := RECK + Image(L, HDR, Records(L, regs, fpregs, pre, remote));
            DumpSpec(L, openFd, initRet, regs, fpregs, Table(pre + [m] + post), remote, write) ==
              DumpOutcome.Threw(before + L.encodeMdata(EntryOf(L, |before|, MemoryMapEntry, L.mapSize + Size(m))) + L.encodeMap(m))
  {
    var h := Put(Writer([], 0, 0, true), RECK, write);
    PutComplete(Writer([], 0, 0, true), RECK, write);
    var w := h.(ret := initRet);
    SetsLayout(L, w, regs, fpregs, write);
    var b := Snapshots(L, Snapshots(L, w, Regs, regs, write), FpRegs, fpregs, write);
    var rsB := SnapshotRecords(L, Regs, regs) + SnapshotRecords(L, FpRegs, fpregs);
    var maps := pre + [m] + post;
    var st := MapsState(b, [], false);
    MapEntriesLayout(L, b, pre, remote, write, rsB);
    var v := MapEntries(L, st, pre, remote, write);
    RegionThrows(L, v, m, remote, write);
    assert maps[..|pre| + 1] == pre + [m];
    assert (pre + [m])[..|pre|] == pre;
    MapEntriesStuck(L, st, maps, |pre| + 1, remote, write);
  }

  /** The record of the maps line "1000-zz x" (start 0x1000, the end left
      0, no pathname; see `MapsExamples.UnparsableEnd`) is kept, and a
      complete dump of it throws. */
  lemma UnparsableEndThrows(L: Layout, openFd: int, initRet: int, regs: seq<seq<byte>>, fpregs: seq<seq<byte>>,
                            remote: MemoryMap -> RemoteRead, write: (nat, nat) -> int)
    requires CompleteWrites(write) && CompleteReads(remote)
    requires 0 <= openFd && 0 <= initRet && regs != [] && fpregs != []
    ensures !Skipped(Zero.(start := 0x1000)) && Size(Zero.(start := 0x1000)) > VECTOR_MAX
    ensures DumpSpec(L, openFd, initRet, regs, fpregs, Table([Zero.(start := 0x1000)]), remote, write).Threw?
  {
    var m := Zero.(start := 0x1000);
    assert CStr([]) == [];
    assert !Contains([], "[vdso]") && !Contains([], "[vvar]");
    assert [] + [m] + [] == [m];
    DumpOversized(L, openFd, initRet, regs, fpregs, [], m, [], remote, write);
  }

  /** The early exits: a failed `open` returns its error and writes
      nothing; a short header write returns what that write returned,
      leaving the part of "RECK" it wrote; a failed `init` returns its
      error with just the header in the file. */
  lemma DumpEarlyExits(L: Layout, openFd: int, initRet: int, regs: seq<seq<byte>>, fpregs: seq<seq<byte>>,
                       maps: MapsOutcome, remote: MemoryMap -> RemoteRead, write: (nat, nat) -> int)
    ensures openFd < 0 ==> DumpSpec(L, openFd, initRet, regs, fpregs, maps, remote, write) == Returned(openFd, [])
    ensures 0 <= openFd && write(0, HDR) != HDR ==>
              var r := DumpSpec(L, openFd, initRet, regs, fpregs, maps, remote, write);
              r.Returned? && r.ret == write(0, HDR) && r.file <= RECK && (write(0, HDR) < HDR ==> |r.file| < HDR)
    ensures 0 <= openFd && write(0, HDR) == HDR && initRet < 0 ==>
              DumpSpec(L, openFd, initRet, regs, fpregs, maps, remote, write) == Returned(initRet, RECK)
  {
    var h := Put(Writer([], 0, 0, true), RECK, write);
    assert [] + RECK[..Written(write(0, HDR), HDR)] == RECK[..Written(write(0, HDR), HDR)];
  }

  /** With no register sets the dump stops after the header yet reports
      the non-negative result of `init`, not an error. */
  lemma DumpNoRegs(L: Layout, openFd: int, initRet: int, fpregs: seq<seq<byte>>,
                   maps: MapsOutcome, remote: MemoryMap -> RemoteRead, write: (nat, nat) -> int)
    requires 0 <= openFd && 0 <= initRet && write(0, HDR) == HDR
    ensures DumpSpec(L, openFd, initRet, [], fpregs, maps, remote, write) == Returned(initRet, RECK)
  {
  }

  /** With no floating-point sets the dump stops after the register sets
      and reports the byte count of the last one, not an error. */
  lemma DumpNoFpRegs(L: Layout, openFd: int, initRet: int, regs: seq<seq<byte>>,
                     maps: MapsOutcome, remote: MemoryMap -> RemoteRead, write: (nat, nat) -> int)
    requires CompleteWrites(write)
    requires 0 <= openFd && 0 <= initRet && regs != []
    ensures DumpSpec(L, openFd, initRet, regs, [], maps, remote, write) ==
              Returned(|regs[|regs| - 1]|, RECK + Image(L, HDR, SnapshotRecords(L, Regs, regs)))
  {
    var h := Put(Writer([], 0, 0, true), RECK, write);
    assert h.file == RECK + Image(L, HDR, []);
    SnapshotsLayout(L, h.(ret := initRet), Regs, regs, write, []);
    assert [] + SnapshotRecords(L, Regs, regs) == SnapshotRecords(L, Regs, regs);
  }
}
