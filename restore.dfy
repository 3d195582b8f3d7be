/** `serializer::restore_serialized_file` up to the point where the saved
    state has been loaded (src/serializer.cpp): read the index, open the
    file again, and for each entry seek to its payload and load a register
    set, a floating-point register set, or a memory region. What `mmap` and
    `mprotect` answer is given; the fork that then hands the register sets
    to a tracer is not part of this model. */
module RestoreFile {
  import opened Common
  import opened Maps
  import opened Format
  import opened Serialized
  import opened ReadIndex

  /** A memory region loaded back: its record, whether it was mapped as a
      growing stack (`MAP_GROWSDOWN | MAP_STACK`) rather than at a fixed
      address, and the bytes read into it. */
  datatype Region = Region(entry: MemoryMap, stack: bool, contents: seq<byte>)

  /** What the loop has gathered: `v_regs`, `v_fpregs`, and the regions. */
  datatype Loaded = Loaded(regs: seq<seq<byte>>, fpregs: seq<seq<byte>>, regions: seq<Region>)

  /** The restore returns -1 (`Failed`), reaches the fork with everything
      loaded (`Ready`), or is ended by the `std::bad_alloc` of the index
      read (`Exhausted`). */
  datatype RestoreOutcome = Failed | Ready(loaded: Loaded) | Exhausted

  /** `strstr(map.pathname, "[stack]")`: the region is mapped as a stack. */
  predicate StackMapping(m: MemoryMap)
  {
    Contains(CStr(m.pathname), "[stack]")
  }

  /** How many things have been loaded. */
  function Count(ld: Loaded): nat
  {
    |ld.regs| + |ld.fpregs| + |ld.regions|
  }

  /** One pass of the loop over the entries, given what was loaded so far;
      `None` is the `return -1` of a failed step. `mmap(m, stack)` says
      whether the mapping succeeded, `mprotect(m)` what `mprotect` returned.
      A pass that gets through loads exactly one thing onto what was
      loaded before. */
  function LoadEntry(L: Layout, file: seq<byte>, md: Mdata, mmap: (MemoryMap, bool) -> bool,
                     mprotect: MemoryMap -> int, acc: Loaded): (r: Option<Loaded>)
    ensures r.Some? ==> acc.regs <= r.value.regs && acc.fpregs <= r.value.fpregs && acc.regions <= r.value.regions
    ensures r.Some? ==> Count(r.value) == Count(acc) + 1
  {
    if md.offset > OFF_T_MAX then None
    else
      match TypeOf(md.kind)
      case None => None
      case Some(Regs) =>
        var b := ReadAt(file, md.offset, L.regsSize);
        if |b| != L.regsSize then None else Some(acc.(regs := acc.regs + [b]))
      case Some(FpRegs) =>
        var b := ReadAt(file, md.offset, L.fpregsSize);
        if |b| != L.fpregsSize then None else Some(acc.(fpregs := acc.fpregs + [b]))
      case Some(MemoryMapEntry) =>
        var b := ReadAt(file, md.offset, L.mapSize);
        if |b| != L.mapSize then None
        else
          var m := L.decodeMap(b);
          var stack := StackMapping(m);
          if !mmap(m, stack) then None
          else
            var c := ReadAt(file, md.offset + L.mapSize, Size(m));
            if |c| != Size(m) || mprotect(m) < 0 then None
            else Some(acc.(regions := acc.regions + [Region(m, stack, c)]))
  }

  /** The loop over the entries `es`, in index order. */
  function LoadEntries(L: Layout, file: seq<byte>, es: seq<Mdata>, mmap: (MemoryMap, bool) -> bool,
                       mprotect: MemoryMap -> int): Option<Loaded>
    decreases |es|
  {
    if es == [] then Some(Loaded([], [], []))
    else
      match LoadEntries(L, file, es[..|es| - 1], mmap, mprotect)
      case None => None
      case Some(acc) => LoadEntry(L, file, es[|es| - 1], mmap, mprotect, acc)
  }

  /** `restore_serialized_file` through its loop: `file` is the file as the
      index read opens it (`None` when it does not), `reopened` whether the
      second `open` succeeds, `cap` the room for index entries. */
  function RestoreSpec(L: Layout, file: Option<seq<byte>>, cap: nat, reopened: bool,
                       mmap: (MemoryMap, bool) -> bool, mprotect: MemoryMap -> int): (r: RestoreOutcome)
    ensures r == Exhausted <==> ReadIndexSpec(L, file, cap).OutOfMemory?
    ensures r.Ready? ==> reopened && file.Some? && ReadIndexSpec(L, file, cap).Listed? &&
                         0 < Count(r.loaded) == |ReadIndexSpec(L, file, cap).entries| <= cap
  {
    match ReadIndexSpec(L, file, cap)
    case OutOfMemory => Exhausted
    case Listed(es) =>
      if es == [] || !reopened || file.None? then Failed
      else
        LoadedCount(L, file.value, es, mmap, mprotect);
        match LoadEntries(L, file.value, es, mmap, mprotect)
        case None => Failed
        case Some(ld) => Ready(ld)
  }

  /** A loop that gets through has loaded one thing per entry. */
  lemma {:induction false} LoadedCount(L: Layout, file: seq<byte>, es: seq<Mdata>,
                                       mmap: (MemoryMap, bool) -> bool, mprotect: MemoryMap -> int)
    ensures LoadEntries(L, file, es, mmap, mprotect).Some? ==> Count(LoadEntries(L, file, es, mmap, mprotect).value) == |es|
    decreases |es|
  {
    if es != [] {
      LoadedCount(L, file, es[..|es| - 1], mmap, mprotect);
    }
  }

  /** The loop body of `restore_serialized_file` for one entry. */
  method LoadStep(L: Layout, file: seq<byte>, md: Mdata, mmap: (MemoryMap, bool) -> bool,
                  mprotect: MemoryMap -> int, acc: Loaded) returns (r: Option<Loaded>)
    ensures r == LoadEntry(L, file, md, mmap, mprotect, acc)
  {
    if md.offset > OFF_T_MAX {
      return None;
    }
    var t := TypeOf(md.kind);
    if t == Some(Regs) {
      var regs := ReadAt(file, md.offset, L.regsSize);
      if |regs| != L.regsSize {
        return None;
      }
      return Some(acc.(regs := acc.regs + [regs]));
    } else if t == Some(FpRegs) {
      var fpregs := ReadAt(file, md.offset, L.fpregsSize);
      if |fpregs| != L.fpregsSize {
        return None;
      }
      return Some(acc.(fpregs := acc.fpregs + [fpregs]));
    } else if t == Some(MemoryMapEntry) {
      var b := ReadAt(file, md.offset, L.mapSize);
      if |b| != L.mapSize {
        return None;
      }
      var m := L.decodeMap(b);
      var stack := StackMapping(m);
      if !mmap(m, stack) {
        return None;
      }
      var c := ReadAt(file, md.offset + L.mapSize, Size(m));
      if |c| != Size(m) {
        return None;
      }
      if mprotect(m) < 0 {
        return None;
      }
      return Some(acc.(regions := acc.regions + [Region(m, stack, c)]));
    } else {
      return None;
    }
  }

  /** `restore_serialized_file` step by step, up to the fork. */
  method RestoreSerializedFile(L: Layout, file: Option<seq<byte>>, cap: nat, reopened: bool,
                               mmap: (MemoryMap, bool) -> bool, mprotect: MemoryMap -> int)
    returns (r: RestoreOutcome)
    ensures r == RestoreSpec(L, file, cap, reopened, mmap, mprotect)
  {
    var index := ReadSerializedMdata(L, file, cap);
    if index.OutOfMemory? {
      return Exhausted;
    }
    var es := index.entries;
    if es == [] || !reopened || file.None? {
      return Failed;
    }
    var acc := Loaded([], [], []);
    var i := 0;
    while i < |es|
      invariant 0 <= i <= |es|
      invariant LoadEntries(L, file.value, es[..i], mmap, mprotect) == Some(acc)
    {
      assert es[..i + 1][..i] == es[..i];
      var next := LoadStep(L, file.value, es[i], mmap, mprotect, acc);
      if next.None? {
        LoadStuck(L, file.value, es, i + 1, mmap, mprotect);
        return Failed;
      }
      acc := next.value;
      i := i + 1;
    }
    assert es[..i] == es;
    return Ready(acc);
  }

  /** Once a step has failed, the whole loop fails. */
  lemma {:induction false} LoadStuck(L: Layout, file: seq<byte>, es: seq<Mdata>, i: nat,
                                     mmap: (MemoryMap, bool) -> bool, mprotect: MemoryMap -> int)
    requires i <= |es| && LoadEntries(L, file, es[..i], mmap, mprotect).None?
    ensures LoadEntries(L, file, es, mmap, mprotect).None?
    decreases |es| - i
  {
    if i < |es| {
      assert es[..i + 1][..i] == es[..i];
      LoadStuck(L, file, es, i + 1, mmap, mprotect);
    } else {
      assert es[..i] == es;
    }
  }

  // ---------------------------------------------------------------------
  // Properties of the restore

  /** An empty index (the file did not open, its header is short or not
      "RECK", or it holds no entries) makes the restore fail. */
  lemma EmptyIndexFails(L: Layout, file: Option<seq<byte>>, cap: nat, reopened: bool,
                        mmap: (MemoryMap, bool) -> bool, mprotect: MemoryMap -> int)
    requires ReadIndexSpec(L, file, cap) == Listed([])
    ensures RestoreSpec(L, file, cap, reopened, mmap, mprotect) == Failed
  {
  }

  /** An entry of unknown type anywhere in the index makes the loop fail. */
  lemma {:induction false} UnknownTypeFails(L: Layout, file: seq<byte>, es: seq<Mdata>, i: nat,
                                            mmap: (MemoryMap, bool) -> bool, mprotect: MemoryMap -> int)
    requires i < |es| && TypeOf(es[i].kind).None?
    ensures LoadEntries(L, file, es, mmap, mprotect).None?
  {
    assert LoadEntries(L, file, es[..i + 1], mmap, mprotect).None? by {
      assert es[..i + 1][..i] == es[..i];
      assert es[..i + 1][i] == es[i];
    }
    LoadStuck(L, file, es, i + 1, mmap, mprotect);
  }

  /** The struct bytes at the payload of each entry of type `t`, in index
      order: `sizeof` the struct, whatever size the entry announces. */
  function Payloads(L: Layout, file: seq<byte>, es: seq<Mdata>, t: MdataType): seq<seq<byte>>
    decreases |es|
  {
    if es == [] then []
    else
      var md := es[|es| - 1];
      var rest := Payloads(L, file, es[..|es| - 1], t);
      if TypeOf(md.kind) == Some(t) then rest + [ReadAt(file, md.offset, if t == Regs then L.regsSize else L.fpregsSize)]
      else rest
  }

  /** Every region loaded is mapped as a stack exactly when its pathname
      names the stack, and holds `map.size()` bytes. */
  predicate RegionsWellLoaded(rs: seq<Region>)
  {
    forall i :: 0 <= i < |rs| ==> rs[i].stack == StackMapping(rs[i].entry) && |rs[i].contents| == Size(rs[i].entry)
  }

  /** One successful pass of the loop: the entry had a known type and an
      offset within `off_t`; a `REGS` entry appends the struct-sized bytes at
      its offset to the register sets, an `FPREGS` entry to the
      floating-point sets, and a region keeps the regions well loaded. */
  lemma LoadEntryShape(L: Layout, file: seq<byte>, md: Mdata, mmap: (MemoryMap, bool) -> bool,
                       mprotect: MemoryMap -> int, acc: Loaded)
    requires LoadEntry(L, file, md, mmap, mprotect, acc).Some?
    ensures TypeOf(md.kind).Some? && md.offset <= OFF_T_MAX
    ensures LoadEntry(L, file, md, mmap, mprotect, acc).value.regs ==
              acc.regs + if TypeOf(md.kind) == Some(Regs) then [ReadAt(file, md.offset, L.regsSize)] else []
    ensures LoadEntry(L, file, md, mmap, mprotect, acc).value.fpregs ==
              acc.fpregs + if TypeOf(md.kind) == Some(FpRegs) then [ReadAt(file, md.offset, L.fpregsSize)] else []
    ensures TypeOf(md.kind) == Some(Regs) ==> |ReadAt(file, md.offset, L.regsSize)| == L.regsSize
    ensures TypeOf(md.kind) == Some(FpRegs) ==> |ReadAt(file, md.offset, L.fpregsSize)| == L.fpregsSize
    ensures RegionsWellLoaded(acc.regions) ==> RegionsWellLoaded(LoadEntry(L, file, md, mmap, mprotect, acc).value.regions)
  {
    var n := LoadEntry(L, file, md, mmap, mprotect, acc).value;
    if TypeOf(md.kind) == Some(MemoryMapEntry) {
      var m := L.decodeMap(ReadAt(file, md.offset, L.mapSize));
      var c := ReadAt(file, md.offset + L.mapSize, Size(m));
      assert n.regions == acc.regions + [Region(m, StackMapping(m), c)];
    }
  }

  /** The loop only gets through an index whose entries all have a known
      type and an offset within `off_t`. */
  lemma {:induction false} LoadedKnown(L: Layout, file: seq<byte>, es: seq<Mdata>,
                                       mmap: (MemoryMap, bool) -> bool, mprotect: MemoryMap -> int)
    requires LoadEntries(L, file, es, mmap, mprotect).Some?
    ensures forall i :: 0 <= i < |es| ==> TypeOf(es[i].kind).Some? && es[i].offset <= OFF_T_MAX
    decreases |es|
  {
    if es != [] {
      var init := es[..|es| - 1];
      var md := es[|es| - 1];
      LoadedKnown(L, file, init, mmap, mprotect);
      var acc := LoadEntries(L, file, init, mmap, mprotect).value;
      assert LoadEntries(L, file, es, mmap, mprotect) == LoadEntry(L, file, md, mmap, mprotect, acc);
      LoadEntryShape(L, file, md, mmap, mprotect, acc);
      forall i | 0 <= i < |es| ensures TypeOf(es[i].kind).Some? && es[i].offset <= OFF_T_MAX {
        if i < |init| {
          assert es[i] == init[i];
        } else {
          assert es[i] == md;
        }
      }
    }
  }

  /** When the loop gets through, the register sets are those of the
      `REGS` entries in index order and the floating-point sets those of
      the `FPREGS` entries, each exactly its struct's size. */
  lemma {:induction false} LoadedPayloads(L: Layout, file: seq<byte>, es: seq<Mdata>,
                                          mmap: (MemoryMap, bool) -> bool, mprotect: MemoryMap -> int)
    requires LoadEntries(L, file, es, mmap, mprotect).Some?
    ensures LoadEntries(L, file, es, mmap, mprotect).value.regs == Payloads(L, file, es, Regs)
    ensures LoadEntries(L, file, es, mmap, mprotect).value.fpregs == Payloads(L, file, es, FpRegs)
    ensures forall s :: s in LoadEntries(L, file, es, mmap, mprotect).value.regs ==> |s| == L.regsSize
    ensures forall s :: s in LoadEntries(L, file, es, mmap, mprotect).value.fpregs ==> |s| == L.fpregsSize
    decreases |es|
  {
    if es != [] {
      var init := es[..|es| - 1];
      var md := es[|es| - 1];
      LoadedPayloads(L, file, init, mmap, mprotect);
      var acc := LoadEntries(L, file, init, mmap, mprotect).value;
      assert LoadEntries(L, file, es, mmap, mprotect) == LoadEntry(L, file, md, mmap, mprotect, acc);
      LoadEntryShape(L, file, md, mmap, mprotect, acc);
    }
  }

  /** When the loop gets through, every region is mapped as a stack iff
      its pathname says "[stack]", and holds its record's size in bytes. */
  lemma {:induction false} LoadedRegions(L: Layout, file: seq<byte>, es: seq<Mdata>,
                                         mmap: (MemoryMap, bool) -> bool, mprotect: MemoryMap -> int)
    requires LoadEntries(L, file, es, mmap, mprotect).Some?
    ensures RegionsWellLoaded(LoadEntries(L, file, es, mmap, mprotect).value.regions)
    decreases |es|
  {
    if es != [] {
      var init := es[..|es| - 1];
      var md := es[|es| - 1];
      LoadedRegions(L, file, init, mmap, mprotect);
      var acc := LoadEntries(L, file, init, mmap, mprotect).value;
      assert LoadEntries(L, file, es, mmap, mprotect) == LoadEntry(L, file, md, mmap, mprotect, acc);
      LoadEntryShape(L, file, md, mmap, mprotect, acc);
    }
  }
}
