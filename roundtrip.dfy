/** What a restore reads back from a file a dump wrote (src/serializer.cpp):
    the index lists the records the dump wrote, and loading them gives back
    the register sets, the floating-point register sets and every region
    the dump kept, with the bytes it wrote for each. */
module RoundTrip {
  import opened Common
  import opened Maps
  import opened Format
  import opened Serialized
  import opened MapsParser
  import opened DumpFile
  import opened ReadIndex
  import opened RestoreFile

  /** Nothing loaded yet. */
  const Nothing: Loaded := Loaded([], [], [])

  /** The `memory_map` struct at the front of a region record, decoded. */
  function MapOf(L: Layout, r: Record): MemoryMap
  {
    L.decodeMap(if L.mapSize <= |r.payload| then r.payload[..L.mapSize] else r.payload)
  }

  /** What loading record `r` adds, independently of where it lies in the
      file: its payload to the register sets or to the floating-point sets,
      or a region built from its struct and the bytes after it. */
  function Extend(L: Layout, acc: Loaded, r: Record): Loaded
  {
    match r.kind
    case Regs => acc.(regs := acc.regs + [r.payload])
    case FpRegs => acc.(fpregs := acc.fpregs + [r.payload])
    case MemoryMapEntry =>
      var m := MapOf(L, r);
      acc.(regions := acc.regions + [Region(m, StackMapping(m), RegionBytes(L, r))])
  }

  /** The records `rs` loaded one after the other onto `acc`. */
  function RestoredFrom(L: Layout, acc: Loaded, rs: seq<Record>): Loaded
    decreases |rs|
  {
    if rs == [] then acc else Extend(L, RestoredFrom(L, acc, rs[..|rs| - 1]), rs[|rs| - 1])
  }

  /** A record the restore loop can load: it announces its payload's size,
      a snapshot is exactly its struct's size, and a region record holds
      its struct followed by as many bytes as the region's size. */
  predicate Loadable(L: Layout, r: Record)
  {
    && r.size == |r.payload|
    && match r.kind
       case Regs => |r.payload| == L.regsSize
       case FpRegs => |r.payload| == L.fpregsSize
       case MemoryMapEntry => L.mapSize <= |r.payload| && |r.payload| == L.mapSize + Size(MapOf(L, r))
  }

  /** Every record of `rs` can be loaded. */
  predicate AllLoadable(L: Layout, rs: seq<Record>)
  {
    forall i :: 0 <= i < |rs| ==> Loadable(L, rs[i])
  }

  /** Every `mmap` and every `mprotect` succeeds. */
  ghost predicate AlwaysMaps(mmap: (MemoryMap, bool) -> bool, mprotect: MemoryMap -> int)
  {
    (forall m, stack :: mmap(m, stack)) && (forall m :: mprotect(m) >= 0)
  }

  // ---------------------------------------------------------------------
  // Loading one record

  /** The payload of a record written after `pre` sits in the file right
      after its index entry. */
  lemma PayloadAt(L: Layout, file: seq<byte>, pre: seq<byte>, r: Record)
    requires ValidLayout(L) && pre + EntryBytes(L, |pre|, r) <= file
    ensures |pre| + L.mdataSize + |r.payload| <= |file|
    ensures file[|pre| + L.mdataSize..|pre| + L.mdataSize + |r.payload|] == r.payload
  {
    var e := L.encodeMdata(EntryOf(L, |pre|, r.kind, r.size));
    var p := pre + (e + r.payload);
    EntryLength(L, |pre|, r);
    assert p[|pre| + L.mdataSize..] == r.payload;
    assert file[..|p|] == p;
  }

  /** Reading `k - j` bytes at `o + j` of a file that holds `p` at `o`. */
  lemma ReadWithin(file: seq<byte>, o: nat, p: seq<byte>, j: nat, k: nat)
    requires o + |p| <= |file| && file[o..o + |p|] == p && j <= k <= |p|
    ensures ReadAt(file, o + j, k - j) == p[j..k]
  {
    forall x | 0 <= x < k - j ensures file[o + j..o + k][x] == p[j..k][x] {
      assert file[o..o + |p|][j + x] == p[j + x];
    }
  }

  /** The restore loop, having loaded `es` into `acc`, goes on to load the
      entry of a loadable record written after `pre` exactly as `Extend`
      says. */
  lemma LoadRecord(L: Layout, file: seq<byte>, es: seq<Mdata>, acc: Loaded, pre: seq<byte>, r: Record,
                   mmap: (MemoryMap, bool) -> bool, mprotect: MemoryMap -> int)
    requires ValidLayout(L) && Loadable(L, r) && AlwaysMaps(mmap, mprotect)
    requires pre + EntryBytes(L, |pre|, r) <= file && |file| <= OFF_T_MAX
    requires LoadEntries(L, file, es, mmap, mprotect) == Some(acc)
    ensures LoadEntries(L, file, es + [EntryOf(L, |pre|, r.kind, r.size)], mmap, mprotect) == Some(Extend(L, acc, r))
  {
    var md := EntryOf(L, |pre|, r.kind, r.size);
    LoadAfter(L, file, pre, r, acc, mmap, mprotect);
    assert (es + [md])[..|es|] == es && (es + [md])[|es|] == md;
  }

  /** One pass of the loop over the entry of a loadable record written
      after `pre`. */
  lemma LoadAfter(L: Layout, file: seq<byte>, pre: seq<byte>, r: Record, acc: Loaded,
                  mmap: (MemoryMap, bool) -> bool, mprotect: MemoryMap -> int)
    requires ValidLayout(L) && Loadable(L, r) && AlwaysMaps(mmap, mprotect)
    requires pre + EntryBytes(L, |pre|, r) <= file && |file| <= OFF_T_MAX
    ensures LoadEntry(L, file, EntryOf(L, |pre|, r.kind, r.size), mmap, mprotect, acc) == Some(Extend(L, acc, r))
  {
    PayloadAt(L, file, pre, r);
    if r.kind == MemoryMapEntry {
      LoadRegion(L, file, |pre|, r, acc, mmap, mprotect);
    } else {
      LoadSnapshot(L, file, |pre|, r, acc, mmap, mprotect);
    }
  }

  /** A register snapshot written at `at` loads as its payload. */
  lemma LoadSnapshot(L: Layout, file: seq<byte>, at: nat, r: Record, acc: Loaded,
                     mmap: (MemoryMap, bool) -> bool, mprotect: MemoryMap -> int)
    requires ValidLayout(L) && Loadable(L, r) && r.kind != MemoryMapEntry
    requires at + L.mdataSize + |r.payload| <= |file| <= OFF_T_MAX
    requires file[at + L.mdataSize..at + L.mdataSize + |r.payload|] == r.payload
    ensures LoadEntry(L, file, EntryOf(L, at, r.kind, r.size), mmap, mprotect, acc) == Some(Extend(L, acc, r))
  {
    var o := at + L.mdataSize;
    var md := EntryOf(L, at, r.kind, r.size);
    assert md.offset == o && TypeOf(md.kind) == Some(r.kind);
    assert ReadAt(file, o, |r.payload|) == r.payload;
  }

  /** A region record written at `at` loads as the region its struct
      describes, with the bytes after the struct. */
  lemma LoadRegion(L: Layout, file: seq<byte>, at: nat, r: Record, acc: Loaded,
                   mmap: (MemoryMap, bool) -> bool, mprotect: MemoryMap -> int)
    requires ValidLayout(L) && Loadable(L, r) && r.kind == MemoryMapEntry && AlwaysMaps(mmap, mprotect)
    requires at + L.mdataSize + |r.payload| <= |file| <= OFF_T_MAX
    requires file[at + L.mdataSize..at + L.mdataSize + |r.payload|] == r.payload
    ensures LoadEntry(L, file, EntryOf(L, at, r.kind, r.size), mmap, mprotect, acc) == Some(Extend(L, acc, r))
  {
    var o := at + L.mdataSize;
    RegionReads(L, file, o, r);
    LoadRegionRead(L, file, EntryOf(L, at, r.kind, r.size), r, acc, mmap, mprotect);
  }

  /** The two reads of a region record held at `o`: its struct, then the
      bytes after it. */
  lemma RegionReads(L: Layout, file: seq<byte>, o: nat, r: Record)
    requires Loadable(L, r) && r.kind == MemoryMapEntry
    requires o + |r.payload| <= |file| && file[o..o + |r.payload|] == r.payload
    ensures ReadAt(file, o, L.mapSize) == r.payload[..L.mapSize]
    ensures ReadAt(file, o + L.mapSize, Size(MapOf(L, r))) == RegionBytes(L, r)
  {
    ReadWithin(file, o, r.payload, 0, L.mapSize);
    ReadWithin(file, o, r.payload, L.mapSize, |r.payload|);
  }

  /** The loop's pass over the entry `md` of a region record whose reads
      give its struct and its bytes. */
  lemma LoadRegionRead(L: Layout, file: seq<byte>, md: Mdata, r: Record, acc: Loaded,
                       mmap: (MemoryMap, bool) -> bool, mprotect: MemoryMap -> int)
    requires Loadable(L, r) && r.kind == MemoryMapEntry && AlwaysMaps(mmap, mprotect)
    requires md.offset <= OFF_T_MAX && TypeOf(md.kind) == Some(MemoryMapEntry)
    requires ReadAt(file, md.offset, L.mapSize) == r.payload[..L.mapSize]
    requires ReadAt(file, md.offset + L.mapSize, Size(MapOf(L, r))) == RegionBytes(L, r)
    ensures LoadEntry(L, file, md, mmap, mprotect, acc) == Some(Extend(L, acc, r))
  {
    var m := MapOf(L, r);
    assert mmap(m, StackMapping(m)) && mprotect(m) >= 0;
  }


  // ---------------------------------------------------------------------
  // Loading a whole image

  /** Loading the entries of a file that starts with the header and the
      image of loadable records gives those records, loaded in order. */
  lemma {:induction false} LoadImage(L: Layout, file: seq<byte>, rs: seq<Record>,
                                     mmap: (MemoryMap, bool) -> bool, mprotect: MemoryMap -> int)
    requires ValidLayout(L) && AlwaysMaps(mmap, mprotect)
    requires AllLoadable(L, rs)
    requires RECK + Image(L, HDR, rs) <= file && |file| <= OFF_T_MAX
    ensures LoadEntries(L, file, Entries(L, HDR, rs), mmap, mprotect) == Some(RestoredFrom(L, Nothing, rs))
    decreases |rs|
  {
    if rs != [] {
      var init := rs[..|rs| - 1];
      var r := rs[|rs| - 1];
      assert rs == init + [r];
      var pre := RECK + Image(L, HDR, init);
      ImagePrefix(L, file, init, r);
      PrefixOfPrefix(pre, EntryBytes(L, |pre|, r), file);
      EntriesPrefix(L, init, r);
      assert AllLoadable(L, init) by {
        forall i | 0 <= i < |init| ensures Loadable(L, init[i]) {
          assert init[i] == rs[i];
        }
      }
      LoadImage(L, file, init, mmap, mprotect);
      LoadRecord(L, file, Entries(L, HDR, init), RestoredFrom(L, Nothing, init), pre, r, mmap, mprotect);
    }
  }

  /** A file that starts with the header and the image of `init + [r]`
      starts with the header and the image of `init`, then the record `r`. */
  lemma ImagePrefix(L: Layout, file: seq<byte>, init: seq<Record>, r: Record)
    requires RECK + Image(L, HDR, init + [r]) <= file
    ensures RECK + Image(L, HDR, init) + EntryBytes(L, |RECK + Image(L, HDR, init)|, r) <= file
  {
    ImageSnoc(L, HDR, init, r);
    assert RECK + Image(L, HDR, init + [r]) == RECK + Image(L, HDR, init) + EntryBytes(L, HDR + |Image(L, HDR, init)|, r);
  }

  /** ... and the index entries of `init + [r]` are those of `init`, then
      that of `r`. */
  lemma EntriesPrefix(L: Layout, init: seq<Record>, r: Record)
    ensures Entries(L, HDR, init + [r]) == Entries(L, HDR, init) + [EntryOf(L, |RECK + Image(L, HDR, init)|, r.kind, r.size)]
  {
    EntriesSnoc(L, HDR, init, r);
  }

  /** A prefix of a prefix of `file` is a prefix of `file`. */
  lemma PrefixOfPrefix(a: seq<byte>, b: seq<byte>, file: seq<byte>)
    requires a + b <= file
    ensures a <= file
  {
    assert file[..|a|] == (a + b)[..|a|] == a;
  }

  /** Loading `a + b` is loading `a`, then `b`. */
  lemma {:induction false} RestoredAppend(L: Layout, acc: Loaded, a: seq<Record>, b: seq<Record>)
    ensures RestoredFrom(L, acc, a + b) == RestoredFrom(L, RestoredFrom(L, acc, a), b)
    decreases |b|
  {
    if b == [] {
      assert a + b == a;
    } else {
      var init := b[..|b| - 1];
      assert (a + b)[..|a + b| - 1] == a + init;
      assert (a + b)[|a + b| - 1] == b[|b| - 1];
      RestoredAppend(L, acc, a, init);
    }
  }

  /** Loading the records of register snapshots appends the snapshots to
      the register sets of their type and leaves the rest alone. */
  lemma {:induction false} SnapshotsRestored(L: Layout, acc: Loaded, t: MdataType, snaps: seq<seq<byte>>)
    requires t != MemoryMapEntry
    ensures RestoredFrom(L, acc, SnapshotRecords(L, t, snaps)) ==
              if t == Regs then acc.(regs := acc.regs + snaps) else acc.(fpregs := acc.fpregs + snaps)
    decreases |snaps|
  {
    if snaps == [] {
      assert acc.regs + snaps == acc.regs && acc.fpregs + snaps == acc.fpregs;
    } else {
      var init := snaps[..|snaps| - 1];
      var last := snaps[|snaps| - 1];
      var rs := SnapshotRecords(L, t, snaps);
      assert rs[..|rs| - 1] == SnapshotRecords(L, t, init);
      assert rs[|rs| - 1] == Record(t, if t == Regs then L.regsSize else L.fpregsSize, last);
      SnapshotsRestored(L, acc, t, init);
      var prev := RestoredFrom(L, acc, SnapshotRecords(L, t, init));
      assert RestoredFrom(L, acc, rs) == Extend(L, prev, rs[|rs| - 1]);
      assert snaps == init + [last];
      if t == Regs {
        assert prev.regs + [last] == acc.regs + snaps;
      } else {
        assert prev.fpregs + [last] == acc.fpregs + snaps;
      }
    }
  }

  /** Loading the region records appends one region per kept region: its
      `memory_map`, whether it names the stack, and the content written for
      it; the register sets are left alone. */
  lemma {:induction false} MapsRestored(L: Layout, acc: Loaded, maps: seq<MemoryMap>, remote: MemoryMap -> RemoteRead)
    requires ValidLayout(L)
    ensures var ld := RestoredFrom(L, acc, MapRecords(L, maps, remote));
            && ld.regs == acc.regs && ld.fpregs == acc.fpregs
            && |ld.regions| == |acc.regions| + |Kept(maps)| && ld.regions[..|acc.regions|] == acc.regions
            && |MapRecords(L, maps, remote)| == |Kept(maps)|
            && forall i :: 0 <= i < |Kept(maps)| ==>
                 ld.regions[|acc.regions| + i] ==
                   Region(Kept(maps)[i], StackMapping(Kept(maps)[i]), RegionBytes(L, MapRecords(L, maps, remote)[i]))
    decreases |maps|
  {
    MapRecordsCount(L, maps, remote);
    if maps != [] {
      var init := maps[..|maps| - 1];
      var m := maps[|maps| - 1];
      MapsRestored(L, acc, init, remote);
      MapRecordsCount(L, init, remote);
      if !Skipped(m) {
        var rs := MapRecords(L, maps, remote);
        var c := Content(Buffer(init, remote), m, remote);
        assert rs[..|rs| - 1] == MapRecords(L, init, remote) && rs[|rs| - 1] == MapRecord(L, m, c);
        var prev := RestoredFrom(L, acc, MapRecords(L, init, remote));
        RegionRestored(L, prev, m, c);
        var ld := RestoredFrom(L, acc, rs);
        assert ld.regions == prev.regions + [Region(m, StackMapping(m), RegionBytes(L, rs[|rs| - 1]))];
        forall i | 0 <= i < |Kept(maps)|
          ensures ld.regions[|acc.regions| + i] ==
                    Region(Kept(maps)[i], StackMapping(Kept(maps)[i]), RegionBytes(L, rs[i]))
        {
          if i < |Kept(init)| {
            assert rs[i] == MapRecords(L, init, remote)[i];
            assert Kept(maps)[i] == Kept(init)[i];
          }
        }
      }
    }
  }

  /** There is one region record per kept region. */
  lemma {:induction false} MapRecordsCount(L: Layout, maps: seq<MemoryMap>, remote: MemoryMap -> RemoteRead)
    ensures |MapRecords(L, maps, remote)| == |Kept(maps)|
    decreases |maps|
  {
    if maps != [] {
      MapRecordsCount(L, maps[..|maps| - 1], remote);
    }
  }

  /** Loading the record of region `m` with content `c` adds the region
      `m`, mapped as a stack iff it names the stack, holding `c`. */
  lemma RegionRestored(L: Layout, acc: Loaded, m: MemoryMap, c: seq<byte>)
    requires ValidLayout(L)
    ensures Extend(L, acc, MapRecord(L, m, c)) == acc.(regions := acc.regions + [Region(m, StackMapping(m), c)])
    ensures RegionBytes(L, MapRecord(L, m, c)) == c
  {
    var r := MapRecord(L, m, c);
    assert |L.encodeMap(m)| == L.mapSize;
    assert r.payload[..L.mapSize] == L.encodeMap(m);
    RegionBytesOf(L, m, c);
  }

  // ---------------------------------------------------------------------
  // Dump, then restore

  /** Every record a dump writes can be loaded back, provided the snapshots
      are exactly their structs' sizes. */
  lemma RecordsLoadable(L: Layout, regs: seq<seq<byte>>, fpregs: seq<seq<byte>>, maps: seq<MemoryMap>, remote: MemoryMap -> RemoteRead)
    requires ValidLayout(L)
    requires forall s :: s in regs ==> |s| == L.regsSize
    requires forall s :: s in fpregs ==> |s| == L.fpregsSize
    ensures AllLoadable(L, Records(L, regs, fpregs, maps, remote))
  {
    var a := SnapshotRecords(L, Regs, regs);
    var b := SnapshotRecords(L, FpRegs, fpregs);
    SnapshotsLoadable(L, Regs, regs);
    SnapshotsLoadable(L, FpRegs, fpregs);
    MapsLoadable(L, maps, remote);
    LoadableAppend(L, a, b);
    LoadableAppend(L, a + b, MapRecords(L, maps, remote));
  }

  /** The records of snapshots of their structs' size can be loaded. */
  lemma SnapshotsLoadable(L: Layout, t: MdataType, snaps: seq<seq<byte>>)
    requires t != MemoryMapEntry
    requires forall s :: s in snaps ==> |s| == if t == Regs then L.regsSize else L.fpregsSize
    ensures AllLoadable(L, SnapshotRecords(L, t, snaps))
  {
    var rs := SnapshotRecords(L, t, snaps);
    forall i | 0 <= i < |rs| ensures Loadable(L, rs[i]) {
      assert snaps[i] in snaps;
    }
  }

  /** The region records of a dump can be loaded. */
  lemma MapsLoadable(L: Layout, maps: seq<MemoryMap>, remote: MemoryMap -> RemoteRead)
    requires ValidLayout(L)
    ensures AllLoadable(L, MapRecords(L, maps, remote))
  {
    var rs := MapRecords(L, maps, remote);
    MapRecordsShape(L, maps, remote);
    forall i | 0 <= i < |rs| ensures Loadable(L, rs[i]) {
      assert MapOf(L, rs[i]) == Kept(maps)[i];
    }
  }

  /** Two runs of loadable records make one. */
  lemma LoadableAppend(L: Layout, a: seq<Record>, b: seq<Record>)
    requires AllLoadable(L, a) && AllLoadable(L, b)
    ensures AllLoadable(L, a + b)
  {
    forall i | 0 <= i < |a + b| ensures Loadable(L, (a + b)[i]) {
      if i >= |a| {
        assert (a + b)[i] == b[i - |a|];
      }
    }
  }

  /** A record's payload is part of the image. */
  lemma {:induction false} PayloadWithinImage(L: Layout, pos: nat, rs: seq<Record>, k: nat)
    requires ValidLayout(L) && k < |rs|
    ensures |rs[k].payload| <= |Image(L, pos, rs)|
    decreases |rs|
  {
    EntryLength(L, pos, rs[0]);
    if k > 0 {
      PayloadWithinImage(L, pos + |EntryBytes(L, pos, rs[0])|, rs[1..], k - 1);
    }
  }

  /** A dump whose image fits `off_t` keeps only regions that fit the
      buffer: each region's content is part of the image. */
  lemma ImageFits(L: Layout, regs: seq<seq<byte>>, fpregs: seq<seq<byte>>, maps: seq<MemoryMap>, remote: MemoryMap -> RemoteRead)
    requires ValidLayout(L)
    requires HDR + |Image(L, HDR, Records(L, regs, fpregs, maps, remote))| <= OFF_T_MAX
    ensures Fits(maps)
  {
    var rs := Records(L, regs, fpregs, maps, remote);
    var n := |SnapshotRecords(L, Regs, regs) + SnapshotRecords(L, FpRegs, fpregs)|;
    MapRecordsShape(L, maps, remote);
    KeptSpec(maps);
    forall i | 0 <= i < |maps| && !Skipped(maps[i]) ensures Size(maps[i]) <= VECTOR_MAX {
      assert maps[i] in Kept(maps);
      var j :| 0 <= j < |Kept(maps)| && Kept(maps)[j] == maps[i];
      assert rs[n + j] == MapRecords(L, maps, remote)[j];
      PayloadWithinImage(L, HDR, rs, n + j);
    }
  }

  /** The index of a dumped file lists one entry per record the dump wrote. */
  lemma DumpThenIndex(L: Layout, openFd: int, initRet: int, regs: seq<seq<byte>>, fpregs: seq<seq<byte>>,
                      maps: seq<MemoryMap>, remote: MemoryMap -> RemoteRead, write: (nat, nat) -> int, cap: nat)
    requires ValidLayout(L) && CompleteWrites(write) && CompleteReads(remote)
    requires 0 <= openFd && 0 <= initRet && regs != [] && fpregs != []
    requires forall s :: s in regs ==> |s| == L.regsSize
    requires forall s :: s in fpregs ==> |s| == L.fpregsSize
    requires HDR + |Image(L, HDR, Records(L, regs, fpregs, maps, remote))| <= OFF_T_MAX
    requires |Records(L, regs, fpregs, maps, remote)| <= cap
    ensures ReadIndexSpec(L, Some(DumpSpec(L, openFd, initRet, regs, fpregs, Table(maps), remote, write).file), cap) ==
              Listed(Entries(L, HDR, Records(L, regs, fpregs, maps, remote)))
  {
    var rs := Records(L, regs, fpregs, maps, remote);
    ImageFits(L, regs, fpregs, maps, remote);
    DumpLayout(L, openFd, initRet, regs, fpregs, maps, remote, write);
    RecordsLoadable(L, regs, fpregs, maps, remote);
    assert Announced(rs);
    ReadImage(L, rs, cap);
  }

  /** A file holding the header and the image of loadable records, within
      `off_t`, restores: the records are loaded in file order. */
  lemma RestoreImage(L: Layout, rs: seq<Record>, cap: nat, mmap: (MemoryMap, bool) -> bool, mprotect: MemoryMap -> int)
    requires ValidLayout(L) && AlwaysMaps(mmap, mprotect) && AllLoadable(L, rs) && rs != []
    requires HDR + |Image(L, HDR, rs)| <= OFF_T_MAX && |rs| <= cap
    ensures RestoreSpec(L, Some(RECK + Image(L, HDR, rs)), cap, true, mmap, mprotect) == Ready(RestoredFrom(L, Nothing, rs))
  {
    var file := RECK + Image(L, HDR, rs);
    assert Announced(rs);
    ReadImage(L, rs, cap);
    EntriesSpans(L, HDR, rs);
    LoadImage(L, file, rs, mmap, mprotect);
  }

  /** The regions as a restore should load them from a dump of `maps`: one
      per kept region, the region's `memory_map`, mapped as a stack iff it
      names the stack, holding the bytes read from the process for a
      readable region and the previous region's bytes resized for any
      other. */
  predicate RegionsAsDumped(rgs: seq<Region>, maps: seq<MemoryMap>, remote: MemoryMap -> RemoteRead)
  {
    && |rgs| == |Kept(maps)|
    && forall i :: 0 <= i < |Kept(maps)| ==>
         && rgs[i].entry == Kept(maps)[i]
         && rgs[i].stack == StackMapping(Kept(maps)[i])
         && rgs[i].contents ==
              if Kept(maps)[i].prot.read then remote(Kept(maps)[i]).bytes
              else Resize(if i == 0 then [] else rgs[i - 1].contents, Size(Kept(maps)[i]))
  }

  /** The records of a dump, loaded in order: the register sets and
      floating-point sets the dump was given, and the regions as dumped. */
  lemma DumpedRecordsLoad(L: Layout, regs: seq<seq<byte>>, fpregs: seq<seq<byte>>, maps: seq<MemoryMap>, remote: MemoryMap -> RemoteRead)
    requires ValidLayout(L) && CompleteReads(remote)
    ensures RestoredFrom(L, Nothing, Records(L, regs, fpregs, maps, remote)).regs == regs
    ensures RestoredFrom(L, Nothing, Records(L, regs, fpregs, maps, remote)).fpregs == fpregs
    ensures RegionsAsDumped(RestoredFrom(L, Nothing, Records(L, regs, fpregs, maps, remote)).regions, maps, remote)
  {
    var a := SnapshotRecords(L, Regs, regs);
    var b := SnapshotRecords(L, FpRegs, fpregs);
    var c := MapRecords(L, maps, remote);
    RestoredAppend(L, Nothing, a + b, c);
    RestoredAppend(L, Nothing, a, b);
    SnapshotsRestored(L, Nothing, Regs, regs);
    SnapshotsRestored(L, RestoredFrom(L, Nothing, a), FpRegs, fpregs);
    var ab := RestoredFrom(L, Nothing, a + b);
    assert ab == Loaded(regs, fpregs, []);
    MapsRestored(L, ab, maps, remote);
    RegionContents(L, RestoredFrom(L, ab, c).regions, maps, remote);
  }

  /** Regions built from the region records of a dump are as dumped. */
  lemma RegionContents(L: Layout, rgs: seq<Region>, maps: seq<MemoryMap>, remote: MemoryMap -> RemoteRead)
    requires ValidLayout(L) && CompleteReads(remote)
    requires |rgs| == |Kept(maps)| == |MapRecords(L, maps, remote)|
    requires forall i :: 0 <= i < |Kept(maps)| ==>
               rgs[i] == Region(Kept(maps)[i], StackMapping(Kept(maps)[i]), RegionBytes(L, MapRecords(L, maps, remote)[i]))
    ensures RegionsAsDumped(rgs, maps, remote)
  {
    var c := MapRecords(L, maps, remote);
    forall i | 0 <= i < |Kept(maps)|
      ensures rgs[i].contents ==
                if Kept(maps)[i].prot.read then remote(Kept(maps)[i]).bytes
                else Resize(if i == 0 then [] else rgs[i - 1].contents, Size(Kept(maps)[i]))
    {
      var m := Kept(maps)[i];
      if m.prot.read {
        ReadableContent(L, maps, remote, i);
        assert remote(m).bytes[..Size(m)] == remote(m).bytes;
      } else {
        StaleContent(L, maps, remote, i);
      }
    }
  }

  /** What the restore loads from the header and the image of a dump's
      records: the register sets and floating-point sets the dump was
      given, and the regions as dumped. */
  lemma RestoreRecords(L: Layout, regs: seq<seq<byte>>, fpregs: seq<seq<byte>>, maps: seq<MemoryMap>,
                       remote: MemoryMap -> RemoteRead, cap: nat, mmap: (MemoryMap, bool) -> bool, mprotect: MemoryMap -> int)
    requires ValidLayout(L) && CompleteReads(remote) && AlwaysMaps(mmap, mprotect) && regs != []
    requires forall s :: s in regs ==> |s| == L.regsSize
    requires forall s :: s in fpregs ==> |s| == L.fpregsSize
    requires HDR + |Image(L, HDR, Records(L, regs, fpregs, maps, remote))| <= OFF_T_MAX
    requires |Records(L, regs, fpregs, maps, remote)| <= cap
    ensures var out := RestoreSpec(L, Some(RECK + Image(L, HDR, Records(L, regs, fpregs, maps, remote))), cap, true, mmap, mprotect);
            && out.Ready? && out.loaded.regs == regs && out.loaded.fpregs == fpregs
            && RegionsAsDumped(out.loaded.regions, maps, remote)
  {
    var rs := Records(L, regs, fpregs, maps, remote);
    RecordsLoadable(L, regs, fpregs, maps, remote);
    RestoreImage(L, rs, cap, mmap, mprotect);
    DumpedRecordsLoad(L, regs, fpregs, maps, remote);
  }

  /** A complete dump restores: the index lists what was written and the
      restore gets, up to the fork, every register set, floating-point set
      and kept region back, with the contents the dump wrote for it. */
  lemma DumpThenRestore(L: Layout, openFd: int, initRet: int, regs: seq<seq<byte>>, fpregs: seq<seq<byte>>,
                        maps: seq<MemoryMap>, remote: MemoryMap -> RemoteRead, write: (nat, nat) -> int,
                        cap: nat, mmap: (MemoryMap, bool) -> bool, mprotect: MemoryMap -> int)
    requires ValidLayout(L) && CompleteWrites(write) && CompleteReads(remote) && AlwaysMaps(mmap, mprotect)
    requires 0 <= openFd && 0 <= initRet && regs != [] && fpregs != []
    requires forall s :: s in regs ==> |s| == L.regsSize
    requires forall s :: s in fpregs ==> |s| == L.fpregsSize
    requires HDR + |Image(L, HDR, Records(L, regs, fpregs, maps, remote))| <= OFF_T_MAX
    requires |Records(L, regs, fpregs, maps, remote)| <= cap
    ensures DumpSpec(L, openFd, initRet, regs, fpregs, Table(maps), remote, write).Returned?
    ensures var out := RestoreSpec(L, Some(DumpSpec(L, openFd, initRet, regs, fpregs, Table(maps), remote, write).file),
                                   cap, true, mmap, mprotect);
            && out.Ready? && out.loaded.regs == regs && out.loaded.fpregs == fpregs
            && RegionsAsDumped(out.loaded.regions, maps, remote)
  {
    ImageFits(L, regs, fpregs, maps, remote);
    DumpLayout(L, openFd, initRet, regs, fpregs, maps, remote, write);
    RestoreRecords(L, regs, fpregs, maps, remote, cap, mmap, mprotect);
  }
}
