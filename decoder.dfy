/**
 * `assemblies_dump` (dabu.c:363-649): validate the header, size the arena,
 * read the descriptor table and both hash tables, then handle every hash32
 * row in order. A row is skipped, appended to the catalog, or stops the
 * whole decode. The blob is a byte sequence, the manifest a sequence of
 * lines, `LZ4_decompress_fast` a function parameter, and the files the decode
 * would write are returned as (path, bytes) records.
 */
module Decoder {
  import opened Wrappers
  import opened Layout
  import opened Text
  import opened Arena
  import opened Strings
  import Manifest
  import opened Catalog

  const ONE_MIB: nat := 1024 * 1024
  const MANIFEST_EXT: string := ".manifest"
  const I32_LIMIT: nat := 0x8000_0000

  /**
   * The capacity the decoder asks `block_create` for: `entry_count * (1024 * 1024)`
   * is an unsigned 32-bit product and wraps, `sizeof(assembly_T) * entry_count` does not.
   */
  function ArenaCapacity(entryCount: nat): nat
    requires entryCount < U32_LIMIT
  {
    (entryCount * ONE_MIB) % U32_LIMIT + ASSEMBLY_SIZE * entryCount
  }

  /** `(int)` of a 32-bit unsigned value: read back as a signed 32-bit integer. */
  function ToInt32(v: nat): (r: int)
    requires v < U32_LIMIT
    ensures (r <= 0) <==> (v == 0 || v >= I32_LIMIT)
  {
    if v < I32_LIMIT then v else v - U32_LIMIT
  }

  /** What `LZ4_decompress_fast` returns, and the bytes it leaves in the destination buffer. */
  datatype Lz4Out = Lz4Out(ret: int, output: Bytes)

  /** A file the decode writes when extraction is requested. */
  datatype Write = Write(path: string, data: Bytes)

  /** Why the decode returned before the row loop. */
  datatype Exit =
    | EmptyPath | ShortHeader | BadMagic | NoEntries | DescriptorAlloc | ShortDescriptors
    | NoIndexEntries | HashAlloc | ShortHashes

  /** Why the row loop was left through `goto EXIT`. */
  datatype Abort = PayloadAlloc | PayloadRead | OutputAlloc | Decompress | OutputPath | WriteResult

  /** Undefined behaviour the source reaches on a row. */
  datatype RowFault = NullName | InString(fault: Fault)

  datatype Status =
    | Exited(exit: Exit)
    | Completed
    | Aborted(row: nat, abort: Abort)
    | Crashed(row: nat, fault: RowFault)

  /** Everything a row depends on that the row loop does not change. */
  datatype Env = Env(blob: Bytes, path: string, lines: Option<seq<string>>, dump: bool,
                     lz4: (Bytes, int) -> Lz4Out, entryCount: nat, indexCount: nat, cap: nat)
  {
    /** The tables have been read: there is at least one descriptor and all rows are in the blob. */
    predicate Ready()
    {
      entryCount >= 1 && TablesEnd(entryCount, indexCount) <= |blob|
    }
  }

  /** The mutable part of a decode: the arena cursor, the catalog and the files written. */
  datatype St = St(offset: nat, nodes: seq<Entry>, writes: seq<Write>)

  /** A state, and the reason the loop stops after it if it does. */
  datatype Step = Step(st: St, stop: Option<Status>)

  /**
   * `get_hash` and `get_descriptor`: a table slot when `index <= size`, so
   * the slot one past the end (`index == size`) is handed out too.
   */
  function CheckedIndex(size: nat, index: nat): (r: Option<nat>)
    ensures r.Some? <==> index <= size
    ensures r.Some? ==> r.value == index
  {
    if index > size then None else Some(index)
  }

  function HashRow(env: Env, i: nat): HashRecord
    requires env.Ready() && i < env.indexCount
  {
    HashAt(env.blob, Hash32Offset(env.entryCount, i))
  }

  /**
   * The descriptor `descriptors[index]` for any `index <= index_entry_count`.
   * The descriptor table, the hash32 table and the hash64 table are
   * consecutive in the arena and hold the blob's bytes from offset 20 on, so
   * a slot past the descriptor table reads the hash tables' bytes.
   */
  function DescriptorRow(env: Env, index: nat): Descriptor
    requires env.Ready() && index <= env.indexCount
  {
    DescriptorAt(env.blob, DescriptorOffset(index))
  }

  /** The name for a row: looked up in the manifest when there is one, else synthesized. */
  function RowName(env: Env, offset: nat, hash32: nat): (r: Copy)
    requires offset <= env.cap
    ensures offset <= r.offset <= env.cap
  {
    match env.lines
    case Some(lines) => Stored(env.cap, offset, Manifest.Lookup(lines, hash32))
    case None => Copy(Some(FallbackName(hash32)), offset)
  }

  /** The compressed buffer after `fread` of `n` bytes at `start`: what the blob has, then zeros. */
  function Available(blob: Bytes, start: nat, n: nat): (r: Bytes)
    requires start <= |blob|
    ensures |r| == n
    ensures forall k :: 0 <= k < n ==> r[k] == if start + k < |blob| then blob[start + k] else 0
  {
    if start + n <= |blob| then blob[start..start + n] else blob[start..] + seq(start + n - |blob|, _ => 0)
  }

  /** The `n`-byte destination buffer after decompression: what was written, then zeros. */
  function FitTo(out: Bytes, n: nat): (r: Bytes)
    ensures |r| == n
    ensures forall k :: 0 <= k < n ==> r[k] == if k < |out| then out[k] else 0
  {
    if |out| >= n then out[..n] else out + seq(n - |out|, _ => 0)
  }

  /** The inner header a row points at, or None when the 12-byte read comes up short. */
  function RowXalz(env: Env, d: Descriptor): Option<Xalz>
  {
    if d.dataOffset + XALZ_SIZE <= |env.blob| then Some(XalzAt(env.blob, d.dataOffset)) else None
  }

  /** The payload steps of a row whose catalog entry has been dealt with (dabu.c:578-612). */
  function PayloadStep(env: Env, st: St, i: nat, d: Descriptor, x: Xalz, name: Option<string>): Step
    requires st.offset <= env.cap
    requires d.dataOffset + XALZ_SIZE <= |env.blob| && x.size < U32_LIMIT
  {
    var cap := env.cap;
    if st.offset + d.dataSize > cap then Step(st, Some(Aborted(i, PayloadAlloc)))
    else
      var off1 := st.offset + d.dataSize;
      if d.dataSize == 0 then Step(st.(offset := off1), Some(Aborted(i, PayloadRead)))
      else if off1 + x.size > cap then Step(st.(offset := off1), Some(Aborted(i, OutputAlloc)))
      else
        var off2 := off1 + x.size;
        var compressed := Available(env.blob, d.dataOffset + XALZ_SIZE, d.dataSize);
        var out := env.lz4(compressed, ToInt32(x.size));
        if out.ret <= 0 then Step(st.(offset := off2), Some(Aborted(i, Decompress)))
        else OutputStep(env, st.(offset := off2), i, FitTo(out.output, x.size), name)
  }

  /** The output path next to the blob, and the write (dabu.c:614-631). */
  function OutputStep(env: Env, st: St, i: nat, data: Bytes, name: Option<string>): Step
    requires st.offset <= env.cap && |data| < U32_LIMIT
  {
    var cap := env.cap;
    var dir := Stored(cap, st.offset, ParentDir(env.path));
    if name.None? then Step(st.(offset := dir.offset), Some(Aborted(i, OutputPath)))
    else
      var made := if dir.text.Some? then StringConcatSpec(cap, dir.offset, dir.text.value, name.value)
                  else StringNewSpec(cap, dir.offset, name.value);
      match made.outcome
      case Null => Step(st.(offset := made.offset), Some(Aborted(i, OutputPath)))
      case Faulted(f) => Step(st.(offset := made.offset), Some(Crashed(i, InString(f))))
      case Made(output) =>
        if !env.dump then Step(st.(offset := made.offset), None)
        else
          var st' := st.(offset := made.offset, writes := st.writes + [Write(output.text, data)]);
          if ToInt32(|data|) <= 0 then Step(st', Some(Aborted(i, WriteResult))) else Step(st', None)
  }

  /** One pass of the row loop (dabu.c:517-633). */
  function RowStep(env: Env, st: St, i: nat): Step
    requires env.Ready() && i < env.indexCount && st.offset <= env.cap
  {
    var h := HashRow(env, i);
    match CheckedIndex(env.indexCount, h.localStoreIndex)
    case None => Step(st, None)
    case Some(index) =>
      var d := DescriptorRow(env, index);
      var name := RowName(env, st.offset, h.Hash32());
      var st1 := st.(offset := name.offset);
      match RowXalz(env, d)
      case None => Step(st1, None)
      case Some(x) =>
        if x.magic != XALZ_MAGIC || x.size == 0 then Step(st1, None)
        else
          var appended := Appended(env.cap, st1.offset, st.nodes, name.text, x.size);
          if appended.nullName then Step(st1.(offset := appended.offset), Some(Crashed(i, NullName)))
          else PayloadStep(env, St(appended.offset, appended.nodes, st.writes), i, d, x, name.text)
  }

  /** `RowStep` wherever it is defined; the loop never reaches the other case. */
  function RowAt(env: Env, st: St, i: nat): Step
  {
    if env.Ready() && i < env.indexCount && st.offset <= env.cap then RowStep(env, st, i) else Step(st, None)
  }

  /** The loop body as a value, so that the loop can be reasoned about apart from it. */
  function Rows(env: Env): (St, nat) -> Step
  {
    (st: St, i: nat) => RowAt(env, st, i)
  }

  /** The state after the first `k` passes of a loop whose body is `step`, stopping at the first stop. */
  function Run(step: (St, nat) -> Step, init: St, k: nat): Step
  {
    if k == 0 then Step(init, None)
    else
      var prev := Run(step, init, k - 1);
      if prev.stop.Some? then prev else step(prev.st, k - 1)
  }

  /** Once a pass stops the loop, later passes change nothing. */
  lemma {:induction false} RunStopPersists(step: (St, nat) -> Step, init: St, k: nat, n: nat)
    requires k <= n && Run(step, init, k).stop.Some?
    ensures Run(step, init, n) == Run(step, init, k)
    decreases n
  {
    if n > k {
      RunStopPersists(step, init, k, n - 1);
    }
  }

  /** The row loop after its first `k` rows. */
  function RunRows(env: Env, init: St, k: nat): Step
  {
    Run(Rows(env), init, k)
  }

  /** The arena as the caller gets it back. */
  datatype ArenaState = ArenaState(cap: nat, offset: nat)

  /** What one call returns: `count`, `*block`, the nodes of `*list`, the files written, and why it ended. */
  datatype DumpResult = DumpResult(count: nat, arena: Option<ArenaState>, entries: seq<Entry>,
                                   writes: seq<Write>, status: Status)

  /** How far the decode gets before the row loop: an early return, or the loop's inputs. */
  datatype Opening = Early(result: DumpResult) | Ready(env: Env, init: St)

  /** The decode, start to end, as a function of its inputs. */
  function DumpSpec(blob: Bytes, path: string, manifestFile: Option<seq<string>>, dump: bool,
                    lz4: (Bytes, int) -> Lz4Out): DumpResult
  {
    match Prelude(blob, path, manifestFile, dump, lz4)
    case Early(r) => r
    case Ready(env, init) => Finish(env, init)
  }

  /** Everything before the row loop (dabu.c:363-515). */
  function Prelude(blob: Bytes, path: string, manifestFile: Option<seq<string>>, dump: bool,
                   lz4: (Bytes, int) -> Lz4Out): (r: Opening)
    ensures r.Ready? ==> r.env.Ready() && r.init.offset <= r.env.cap && r.init.writes == []
  {
    if path == [] then Early(DumpResult(0, None, [], [], Exited(EmptyPath)))
    else if |blob| < HEADER_SIZE then Early(DumpResult(0, None, [], [], Exited(ShortHeader)))
    else
      var h := HeaderAt(blob, 0);
      if h.magic != XABA_MAGIC then Early(DumpResult(0, None, [], [], Exited(BadMagic)))
      else if h.entryCount == 0 then Early(DumpResult(0, None, [], [], Exited(NoEntries)))
      else OpenArena(blob, path, manifestFile, dump, lz4, h.entryCount, h.indexEntryCount)
  }

  /**
   * After a valid header: the arena, the sentinel node, the manifest path,
   * then the descriptor table (dabu.c:418-473).
   */
  function OpenArena(blob: Bytes, path: string, manifestFile: Option<seq<string>>, dump: bool,
                     lz4: (Bytes, int) -> Lz4Out, e: nat, m: nat): (r: Opening)
    requires 1 <= e < U32_LIMIT
    ensures r.Ready? ==> r.env.Ready() && r.init.offset <= r.env.cap && r.init.writes == []
  {
    var cap := ArenaCapacity(e);
    var nodes := if ASSEMBLY_SIZE <= cap then [SENTINEL] else [];
    var off0 := if ASSEMBLY_SIZE <= cap then ASSEMBLY_SIZE else 0;
    var mpath := Stored(cap, off0, ChangeFileExt(path, MANIFEST_EXT));
    var lines := if mpath.text.Some? then manifestFile else None;
    var off1 := mpath.offset;
    if off1 + DESCRIPTOR_SIZE * e > cap then Early(DumpResult(0, Some(ArenaState(cap, off1)), nodes, [], Exited(DescriptorAlloc)))
    else
      var off2 := off1 + DESCRIPTOR_SIZE * e;
      if |blob| < DescriptorOffset(e) then Early(DumpResult(0, Some(ArenaState(cap, off2)), nodes, [], Exited(ShortDescriptors)))
      else if m == 0 then Early(DumpResult(0, Some(ArenaState(cap, off2)), nodes, [], Exited(NoIndexEntries)))
      else HashTables(Env(blob, path, lines, dump, lz4, e, m, cap), St(off2, nodes, []))
  }

  /** The two hash tables (dabu.c:475-513); `count` is set by now. */
  function HashTables(env: Env, init: St): (r: Opening)
    requires env.entryCount >= 1 && init.offset <= env.cap && init.writes == []
    ensures r.Ready? ==> r.env == env && r.env.Ready() && r.init.offset <= r.env.cap && r.init.writes == []
  {
    var e, m, cap, blob := env.entryCount, env.indexCount, env.cap, env.blob;
    if init.offset + HASH_SIZE * m > cap then Early(LeftEarly(env, init, HashAlloc))
    else
      var st3 := init.(offset := init.offset + HASH_SIZE * m);
      if |blob| < Hash32Offset(e, m) then Early(LeftEarly(env, st3, ShortHashes))
      else if st3.offset + HASH_SIZE * m > cap then Early(LeftEarly(env, st3, HashAlloc))
      else
        var st4 := st3.(offset := st3.offset + HASH_SIZE * m);
        if |blob| < TablesEnd(e, m) then Early(LeftEarly(env, st4, ShortHashes))
        else Ready(env, st4)
  }

  /** An early return once `count` is set: the arena and catalog as they stand. */
  function LeftEarly(env: Env, st: St, why: Exit): DumpResult
  {
    DumpResult(env.indexCount, Some(ArenaState(env.cap, st.offset)), st.nodes, [], Exited(why))
  }

  /** The result of a decode that reached the row loop: `count`, the arena, and the loop's outcome. */
  function Finish(env: Env, init: St): DumpResult
  {
    var run := RunRows(env, init, env.indexCount);
    DumpResult(env.indexCount, Some(ArenaState(env.cap, run.st.offset)), run.st.nodes, run.st.writes,
               if run.stop.Some? then run.stop.value else Completed)
  }
}
