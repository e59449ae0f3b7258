/**
 * The decoder as the source runs it: an arena `Block`, a `Catalog` list
 * and the tables read into arrays, changed step by step. Each method is
 * proved to end in the state the functions of module `Decoder` give.
 */
module Dump {
  import opened Wrappers
  import opened Layout
  import opened Text
  import opened Arena
  import opened Strings
  import Manifest
  import opened Catalog
  import opened Decoder

  /** The descriptor and hash32 arrays hold the blob's tables, in file order. */
  ghost predicate Tables(env: Env, descriptors: array<Descriptor>, hashes: array<HashRecord>)
    reads descriptors, hashes
  {
    env.Ready() &&
    descriptors.Length == env.entryCount && hashes.Length == env.indexCount &&
    (forall k :: 0 <= k < descriptors.Length ==> descriptors[k] == DescriptorAt(env.blob, DescriptorOffset(k))) &&
    (forall k :: 0 <= k < hashes.Length ==> hashes[k] == HashAt(env.blob, Hash32Offset(env.entryCount, k)))
  }

  /** The row loop's body from the compressed-payload allocation to decompression (dabu.c:578-612). */
  method ProcessPayload(env: Env, block: Block, nodes: seq<Entry>, writes: seq<Write>, i: nat,
                        d: Descriptor, x: Xalz, name: Option<string>)
    returns (writes': seq<Write>, stop: Option<Status>)
    requires block.Valid() && block.cap == env.cap
    requires d.dataOffset + XALZ_SIZE <= |env.blob| && x.size < U32_LIMIT
    modifies block`offset
    ensures block.Valid() && block.cap == env.cap
    ensures Step(St(block.offset, nodes, writes'), stop)
         == PayloadStep(env, St(old(block.offset), nodes, writes), i, d, x, name)
  {
    var compressedAt := block.Alloc(d.dataSize);
    if compressedAt.None? {
      return writes, Some(Aborted(i, PayloadAlloc));
    }
    // fread of zero bytes returns 0 without reaching end of file
    if d.dataSize == 0 {
      return writes, Some(Aborted(i, PayloadRead));
    }
    var compressed := Available(env.blob, d.dataOffset + XALZ_SIZE, d.dataSize);
    var dataAt := block.Alloc(x.size);
    if dataAt.None? {
      return writes, Some(Aborted(i, OutputAlloc));
    }
    var out := env.lz4(compressed, ToInt32(x.size));
    if out.ret <= 0 {
      return writes, Some(Aborted(i, Decompress));
    }
    writes', stop := WriteOutput(env, block, nodes, writes, i, FitTo(out.output, x.size), name);
  }

  /** The output path and the write (dabu.c:614-631). */
  method WriteOutput(env: Env, block: Block, nodes: seq<Entry>, writes: seq<Write>, i: nat,
                     data: Bytes, name: Option<string>)
    returns (writes': seq<Write>, stop: Option<Status>)
    requires block.Valid() && block.cap == env.cap && |data| < U32_LIMIT
    modifies block`offset
    ensures block.Valid() && block.cap == env.cap
    ensures Step(St(block.offset, nodes, writes'), stop)
         == OutputStep(env, St(old(block.offset), nodes, writes), i, data, name)
  {
    writes' := writes;
    var dir := ParentDirIn(block, env.path);
    if name.None? {
      // string_concat and string_new both refuse a NULL text
      return writes, Some(Aborted(i, OutputPath));
    }
    var output: StrOutcome;
    if dir.Some? {
      output := StringConcat(block, dir.value, name.value);
    } else {
      output := StringNew(block, name.value);
    }
    match output
    case Null =>
      return writes, Some(Aborted(i, OutputPath));
    case Faulted(f) =>
      return writes, Some(Crashed(i, InString(f)));
    case Made(path) =>
      if env.dump {
        writes' := writes + [Write(path.text, data)];
        if ToInt32(|data|) <= 0 {
          return writes', Some(Aborted(i, WriteResult));
        }
      }
      return writes', None;
  }

  /** One pass of the row loop (dabu.c:517-633) for hash32 row `i`. */
  method ProcessRow(env: Env, block: Block, catalog: Catalog, descriptors: array<Descriptor>,
                    hashes: array<HashRecord>, writes: seq<Write>, i: nat)
    returns (writes': seq<Write>, stop: Option<Status>)
    requires Tables(env, descriptors, hashes) && i < env.indexCount
    requires block.Valid() && block.cap == env.cap
    modifies block`offset, catalog
    ensures block.Valid() && block.cap == env.cap
    ensures Step(St(block.offset, catalog.nodes, writes'), stop)
         == RowStep(env, St(old(block.offset), old(catalog.nodes), writes), i)
  {
    // get_hash never fails here: i < index_entry_count == count
    var h := hashes[i];
    var slot := CheckedIndex(env.indexCount, h.localStoreIndex);
    if slot.None? {
      return writes, None;
    }
    var d: Descriptor;
    if slot.value < descriptors.Length {
      d := descriptors[slot.value];
    } else {
      // past the descriptor table: the bytes of the hash tables that follow it
      d := DescriptorAt(env.blob, DescriptorOffset(slot.value));
    }
    var name: Option<string>;
    if env.lines.Some? {
      name := Manifest.DllNameFromManifest(block, env.lines.value, h.Hash32());
    } else {
      name := Some(FallbackName(h.Hash32()));
    }
    if d.dataOffset + XALZ_SIZE > |env.blob| {
      return writes, None;
    }
    var x := XalzAt(env.blob, d.dataOffset);
    if x.magic != XALZ_MAGIC || x.size == 0 {
      return writes, None;
    }
    var fault := catalog.Append(block, name, x.size);
    if fault {
      return writes, Some(Crashed(i, NullName));
    }
    writes', stop := ProcessPayload(env, block, catalog.nodes, writes, i, d, x, name);
  }

  /** `fread` of the descriptor table: `count` records of 24 bytes from offset 20. */
  method ReadDescriptors(blob: Bytes, count: nat) returns (descriptors: array<Descriptor>, ok: bool)
    requires HEADER_SIZE <= |blob|
    ensures fresh(descriptors) && descriptors.Length == count
    ensures ok <==> DescriptorOffset(count) <= |blob|
    ensures ok ==> forall j :: 0 <= j < count ==> descriptors[j] == DescriptorAt(blob, DescriptorOffset(j))
  {
    descriptors := new Descriptor[count];
    var k := 0;
    while k < count
      invariant k <= count && DescriptorOffset(k) <= |blob|
      invariant forall j :: 0 <= j < k ==> descriptors[j] == DescriptorAt(blob, DescriptorOffset(j))
    {
      if |blob| < DescriptorOffset(k + 1) {
        return descriptors, false;
      }
      descriptors[k] := DescriptorAt(blob, DescriptorOffset(k));
      k := k + 1;
    }
    ok := true;
  }

  /** `fread` of a hash table: `count` records of 20 bytes from `start`. */
  method ReadHashes(blob: Bytes, start: nat, count: nat) returns (hashes: array<HashRecord>, ok: bool)
    requires start <= |blob|
    ensures fresh(hashes) && hashes.Length == count
    ensures ok <==> start + HASH_SIZE * count <= |blob|
    ensures ok ==> forall j :: 0 <= j < count ==> hashes[j] == HashAt(blob, start + HASH_SIZE * j)
  {
    hashes := new HashRecord[count];
    var k := 0;
    while k < count
      invariant k <= count && start + HASH_SIZE * k <= |blob|
      invariant forall j :: 0 <= j < k ==> hashes[j] == HashAt(blob, start + HASH_SIZE * j)
    {
      if |blob| < start + HASH_SIZE * (k + 1) {
        return hashes, false;
      }
      hashes[k] := HashAt(blob, start + HASH_SIZE * k);
      k := k + 1;
    }
    ok := true;
  }

  /** The row loop (dabu.c:517-633) over tables that have been read. */
  method RunRowLoop(env: Env, block: Block, catalog: Catalog, descriptors: array<Descriptor>,
                    hashes: array<HashRecord>) returns (entries: seq<Entry>, writes: seq<Write>, status: Status)
    requires Tables(env, descriptors, hashes)
    requires block.Valid() && block.cap == env.cap
    modifies block`offset, catalog
    ensures block.Valid() && block.cap == env.cap
    ensures Finish(env, St(old(block.offset), old(catalog.nodes), []))
         == DumpResult(env.indexCount, Some(ArenaState(env.cap, block.offset)), entries, writes, status)
  {
    ghost var init := St(block.offset, catalog.nodes, []);
    var stop := None;
    writes := [];
    var k := 0;
    while k < env.indexCount && stop.None?
      invariant k <= env.indexCount && block.Valid() && block.cap == env.cap
      invariant RunRows(env, init, k) == Step(St(block.offset, catalog.nodes, writes), stop)
    {
      writes, stop := ProcessRow(env, block, catalog, descriptors, hashes, writes, k);
      k := k + 1;
    }
    if stop.Some? {
      RunStopPersists(Rows(env), init, k, env.indexCount);
    }
    entries := catalog.nodes;
    status := if stop.Some? then stop.value else Completed;
  }

  /** The hash tables (dabu.c:475-513), read once `count` is set. */
  method ReadHashTables(env: Env, block: Block, nodes: seq<Entry>)
    returns (hashes: array<HashRecord>, opening: Opening)
    requires env.entryCount >= 1 && DescriptorOffset(env.entryCount) <= |env.blob|
    requires block.Valid() && block.cap == env.cap
    modifies block`offset
    ensures fresh(hashes) && block.Valid() && block.cap == env.cap
    ensures opening == HashTables(env, St(old(block.offset), nodes, []))
    ensures opening.Early? ==> opening.result.arena == Some(ArenaState(env.cap, block.offset))
    ensures opening.Ready? ==>
              && opening.init == St(block.offset, nodes, [])
              && hashes.Length == env.indexCount
              && forall j :: 0 <= j < env.indexCount ==> hashes[j] == HashAt(env.blob, Hash32Offset(env.entryCount, j))
  {
    var e, m := env.entryCount, env.indexCount;
    hashes := new HashRecord[0];
    var at := block.Alloc(HASH_SIZE * m);
    if at.None? {
      return hashes, Early(LeftEarly(env, St(block.offset, nodes, []), HashAlloc));
    }
    var ok;
    hashes, ok := ReadHashes(env.blob, DescriptorOffset(e), m);
    if !ok {
      return hashes, Early(LeftEarly(env, St(block.offset, nodes, []), ShortHashes));
    }
    at := block.Alloc(HASH_SIZE * m);
    if at.None? {
      return hashes, Early(LeftEarly(env, St(block.offset, nodes, []), HashAlloc));
    }
    var hashes64;
    hashes64, ok := ReadHashes(env.blob, Hash32Offset(e, m), m);
    if !ok {
      return hashes, Early(LeftEarly(env, St(block.offset, nodes, []), ShortHashes));
    }
    opening := Ready(env, St(block.offset, nodes, []));
  }

  /**
   * After a valid header: the arena, the sentinel node, the manifest path,
   * the descriptor table and the hash tables (dabu.c:418-513).
   */
  method Open(blob: Bytes, path: string, manifestFile: Option<seq<string>>, dump: bool,
              lz4: (Bytes, int) -> Lz4Out, e: nat, m: nat)
    returns (block: Block, catalog: Catalog, descriptors: array<Descriptor>, hashes: array<HashRecord>,
             opening: Opening)
    requires 1 <= e < U32_LIMIT && HEADER_SIZE <= |blob|
    ensures fresh(block) && fresh(catalog) && block.Valid()
    ensures opening == OpenArena(blob, path, manifestFile, dump, lz4, e, m)
    ensures opening.Early? ==> opening.result.arena == Some(ArenaState(block.cap, block.offset))
    ensures opening.Ready? ==>
              && block.cap == opening.env.cap
              && opening.init == St(block.offset, catalog.nodes, [])
              && Tables(opening.env, descriptors, hashes)
  {
    var cap := ArenaCapacity(e);
    // the capacity is at least one node, so the arena exists
    block := Block.Create(cap);
    catalog := new Catalog();
    catalog.Init(block, ASSEMBLY_SIZE);
    var manifestPath := ChangeFileExtIn(block, path, MANIFEST_EXT);
    var lines := if manifestPath.Some? then manifestFile else None;
    hashes := new HashRecord[0];

    var at := block.Alloc(DESCRIPTOR_SIZE * e);
    if at.None? {
      descriptors := new Descriptor[0];
      return block, catalog, descriptors, hashes,
        Early(DumpResult(0, Some(ArenaState(cap, block.offset)), catalog.nodes, [], Exited(DescriptorAlloc)));
    }
    var ok;
    descriptors, ok := ReadDescriptors(blob, e);
    if !ok {
      return block, catalog, descriptors, hashes,
        Early(DumpResult(0, Some(ArenaState(cap, block.offset)), catalog.nodes, [], Exited(ShortDescriptors)));
    }
    if m == 0 {
      return block, catalog, descriptors, hashes,
        Early(DumpResult(0, Some(ArenaState(cap, block.offset)), catalog.nodes, [], Exited(NoIndexEntries)));
    }
    var env := Env(blob, path, lines, dump, lz4, e, m, cap);
    hashes, opening := ReadHashTables(env, block, catalog.nodes);
  }

  /**
   * `assemblies_dump`: the blob, the path it was read from (which names the
   * manifest and the output directory), the manifest's lines when that file
   * opens, whether to write the assemblies out, and the LZ4 decoder.
   */
  method AssembliesDump(path: string, blob: Bytes, manifestFile: Option<seq<string>>, dump: bool,
                        lz4: (Bytes, int) -> Lz4Out)
    returns (count: nat, block: Block?, entries: seq<Entry>, writes: seq<Write>, status: Status)
    ensures var r := DumpSpec(blob, path, manifestFile, dump, lz4);
      count == r.count && entries == r.entries && writes == r.writes && status == r.status &&
      (block == null <==> r.arena.None?) &&
      (block != null ==> block.Valid() && block.cap == r.arena.value.cap && block.offset == r.arena.value.offset)
  {
    count, block, entries, writes := 0, null, [], [];
    if |path| == 0 {
      status := Exited(EmptyPath);
      return;
    }
    if |blob| < HEADER_SIZE {
      status := Exited(ShortHeader);
      return;
    }
    var header := HeaderAt(blob, 0);
    if header.magic != XABA_MAGIC {
      status := Exited(BadMagic);
      return;
    }
    if header.entryCount == 0 {
      status := Exited(NoEntries);
      return;
    }
    var arena, catalog, descriptors, hashes, opening :=
      Open(blob, path, manifestFile, dump, lz4, header.entryCount, header.indexEntryCount);
    block := arena;
    match opening
    case Early(r) =>
      count, entries, status := r.count, r.entries, r.status;
    case Ready(env, init) =>
      count := env.indexCount;
      entries, writes, status := RunRowLoop(env, block, catalog, descriptors, hashes);
  }
}
