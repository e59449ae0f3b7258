/**
 * What the decode as a whole promises: a row changes the arena cursor only
 * forwards and within the arena, only ever adds one catalog entry and one
 * written file, and stops the loop only on its own behalf; the row loop
 * keeps what was there before it; and the value `assemblies_dump` returns
 * tells early rejections from decodes that reached the tables.
 */
module Properties {
  import opened Wrappers
  import opened Layout
  import opened Text
  import opened Strings
  import opened Catalog
  import opened Decoder
  import Manifest

  /** A stop, if there is one, is an abort or a fault in row `i`. */
  predicate StopsAt(stop: Option<Status>, i: nat)
  {
    stop.Some? ==> (stop.value.Aborted? || stop.value.Crashed?) && stop.value.row == i
  }

  /** `after` is `before` followed by at most `n` more elements. */
  predicate Extends<T(==)>(before: seq<T>, after: seq<T>, n: nat)
  {
    |before| <= |after| <= |before| + n && after[..|before|] == before
  }

  /** The exits that return before `count` is set. */
  predicate BeforeCount(x: Exit)
  {
    x.EmptyPath? || x.ShortHeader? || x.BadMagic? || x.NoEntries? ||
    x.DescriptorAlloc? || x.ShortDescriptors? || x.NoIndexEntries?
  }

  /** The output step: the catalog is untouched, at most one file is written, and only when dumping. */
  lemma OutputFacts(env: Env, st: St, i: nat, data: Bytes, name: Option<string>)
    requires st.offset <= env.cap && |data| < U32_LIMIT
    ensures var r := OutputStep(env, st, i, data, name);
      && st.offset <= r.st.offset <= env.cap
      && r.st.nodes == st.nodes
      && (r.st.writes == st.writes || (env.dump && r.st.writes == st.writes + [Write(r.st.writes[|st.writes|].path, data)]))
      && StopsAt(r.stop, i)
  {
    var dir := Stored(env.cap, st.offset, ParentDir(env.path));
    if name.Some? {
      var made := if dir.text.Some? then StringConcatSpec(env.cap, dir.offset, dir.text.value, name.value)
                  else StringNewSpec(env.cap, dir.offset, name.value);
      assert st.offset <= made.offset <= env.cap;
    }
  }

  /** The payload steps: the catalog is untouched, at most one file is written, and only when dumping. */
  lemma PayloadFacts(env: Env, st: St, i: nat, d: Descriptor, x: Xalz, name: Option<string>)
    requires st.offset <= env.cap
    requires d.dataOffset + XALZ_SIZE <= |env.blob| && x.size < U32_LIMIT
    ensures var r := PayloadStep(env, st, i, d, x, name);
      && st.offset <= r.st.offset <= env.cap
      && r.st.nodes == st.nodes
      && (r.st.writes == st.writes || (env.dump && |r.st.writes| == |st.writes| + 1 && r.st.writes[..|st.writes|] == st.writes))
      && StopsAt(r.stop, i)
  {
    var off2 := st.offset + d.dataSize + x.size;
    if off2 <= env.cap && d.dataSize != 0 {
      var out := env.lz4(Available(env.blob, d.dataOffset + XALZ_SIZE, d.dataSize), ToInt32(x.size));
      if out.ret > 0 {
        OutputFacts(env, st.(offset := off2), i, FitTo(out.output, x.size), name);
      }
    }
  }

  /** A file the payload steps write holds the `x.size` bytes of the destination buffer. */
  lemma PayloadWrite(env: Env, st: St, i: nat, d: Descriptor, x: Xalz, name: Option<string>)
    requires st.offset <= env.cap
    requires d.dataOffset + XALZ_SIZE <= |env.blob| && x.size < U32_LIMIT
    ensures var r := PayloadStep(env, st, i, d, x, name);
      r.st.writes != st.writes ==> name.Some? && |r.st.writes| == |st.writes| + 1 && |r.st.writes[|st.writes|].data| == x.size
  {
    var off2 := st.offset + d.dataSize + x.size;
    if off2 <= env.cap && d.dataSize != 0 {
      var out := env.lz4(Available(env.blob, d.dataOffset + XALZ_SIZE, d.dataSize), ToInt32(x.size));
      if out.ret > 0 {
        OutputFacts(env, st.(offset := off2), i, FitTo(out.output, x.size), name);
      }
    }
  }

  /**
   * Which output step stops the row: a NULL name, or no room for the
   * `string_T` header, aborts; a failed buffer allocation or the stray
   * terminator past the arena is a fault; a written file whose size is 0 or
   * reads back negative as an `int` aborts. A file is written exactly when
   * the output path was made and extraction was asked for.
   */
  lemma OutputAborts(env: Env, st: St, i: nat, data: Bytes, name: Option<string>)
    requires st.offset <= env.cap && |data| < U32_LIMIT
    ensures var r := OutputStep(env, st, i, data, name);
      var dir := Stored(env.cap, st.offset, ParentDir(env.path));
      var made := if name.None? then Placed(Null, dir.offset)
                  else if dir.text.Some? then StringConcatSpec(env.cap, dir.offset, dir.text.value, name.value)
                  else StringNewSpec(env.cap, dir.offset, name.value);
      && (r.stop == Some(Aborted(i, OutputPath)) <==> made.outcome.Null?)
      && (r.stop.Some? && r.stop.value.Crashed? <==> made.outcome.Faulted?)
      && (r.stop == Some(Aborted(i, WriteResult)) <==> made.outcome.Made? && env.dump && (|data| == 0 || |data| >= I32_LIMIT))
      && (r.stop.None? <==> made.outcome.Made? && (!env.dump || 0 < |data| < I32_LIMIT))
      && (r.st.writes != st.writes <==> made.outcome.Made? && env.dump)
      && (r.st.writes != st.writes ==> r.st.writes == st.writes + [Write(made.outcome.str.text, data)])
  {
  }

  /**
   * Which payload step stops the row: no room for the compressed buffer,
   * `data_size == 0` (a zero-byte `fread` that does not reach end of file),
   * no room for the destination buffer, or a decompression result `<= 0`.
   * A payload cut short by the end of the blob does not stop the row. Past
   * these the row ends as the output step does.
   */
  lemma PayloadAborts(env: Env, st: St, i: nat, d: Descriptor, x: Xalz, name: Option<string>)
    requires st.offset <= env.cap
    requires d.dataOffset + XALZ_SIZE <= |env.blob| && x.size < U32_LIMIT
    ensures var r := PayloadStep(env, st, i, d, x, name);
      var off1 := st.offset + d.dataSize;
      var off2 := off1 + x.size;
      var out := env.lz4(Available(env.blob, d.dataOffset + XALZ_SIZE, d.dataSize), ToInt32(x.size));
      && (r.stop == Some(Aborted(i, PayloadAlloc)) <==> off1 > env.cap)
      && (r.stop == Some(Aborted(i, PayloadRead)) <==> off1 <= env.cap && d.dataSize == 0)
      && (r.stop == Some(Aborted(i, OutputAlloc)) <==> off1 <= env.cap && d.dataSize != 0 && off2 > env.cap)
      && (r.stop == Some(Aborted(i, Decompress)) <==> off2 <= env.cap && d.dataSize != 0 && out.ret <= 0)
      && (off2 <= env.cap && d.dataSize != 0 && out.ret > 0 ==>
            r == OutputStep(env, st.(offset := off2), i, FitTo(out.output, x.size), name))
  {
  }

  /**
   * One row: the cursor moves forwards within the arena, the catalog gains
   * at most one entry and the written files at most one, and a stop is this row's.
   */
  lemma RowFacts(env: Env, st: St, i: nat)
    requires st.offset <= env.cap
    ensures var r := RowAt(env, st, i);
      && st.offset <= r.st.offset <= env.cap
      && Extends(st.nodes, r.st.nodes, 1)
      && Extends(st.writes, r.st.writes, 1)
      && (!env.dump ==> r.st.writes == st.writes)
      && StopsAt(r.stop, i)
  {
    if env.Ready() && i < env.indexCount {
      var h := HashRow(env, i);
      if h.localStoreIndex <= env.indexCount {
        var d := DescriptorRow(env, h.localStoreIndex);
        var name := RowName(env, st.offset, h.Hash32());
        var st1 := st.(offset := name.offset);
        var x := RowXalz(env, d);
        if x.Some? && x.value.magic == XALZ_MAGIC && x.value.size != 0 {
          var appended := Appended(env.cap, st1.offset, st.nodes, name.text, x.value.size);
          if !appended.nullName {
            PayloadFacts(env, St(appended.offset, appended.nodes, st.writes), i, d, x.value, name.text);
          }
        }
      }
    }
  }

  /**
   * The entry a row adds: the row's table slot is in range, its inner header
   * is there with the right magic and a non-zero size, and the entry holds
   * the row's name (the manifest's, or the synthesized one without a
   * manifest) and that size.
   */
  lemma RowEntry(env: Env, st: St, i: nat)
    requires env.Ready() && i < env.indexCount && st.offset <= env.cap
    ensures var r := RowStep(env, st, i);
      |r.st.nodes| > |st.nodes| ==>
        var h := HashRow(env, i);
        && h.localStoreIndex <= env.indexCount
        && var x := RowXalz(env, DescriptorRow(env, h.localStoreIndex));
        && x.Some? && x.value.magic == XALZ_MAGIC && x.value.size > 0
        && var name := RowName(env, st.offset, h.Hash32()).text;
        && name.Some?
        && r.st.nodes == st.nodes + [Entry(StoredName(name.value), x.value.size)]
        && (env.lines.None? ==> name.value == FallbackName(h.Hash32()))
        && (env.lines.Some? ==> name.value == Manifest.Lookup(env.lines.value, h.Hash32()).value)
  {
    var h := HashRow(env, i);
    if h.localStoreIndex <= env.indexCount {
      var d := DescriptorRow(env, h.localStoreIndex);
      var name := RowName(env, st.offset, h.Hash32());
      var x := RowXalz(env, d);
      if x.Some? && x.value.magic == XALZ_MAGIC && x.value.size != 0 {
        var appended := Appended(env.cap, name.offset, st.nodes, name.text, x.value.size);
        if !appended.nullName {
          PayloadFacts(env, St(appended.offset, appended.nodes, st.writes), i, d, x.value, name.text);
        }
      }
    }
  }

  /**
   * The entry is appended before the payload is touched: a row that passes
   * its checks, has a name and whose node fits keeps its entry whatever the
   * allocation, the read, the decompression or the write then do.
   */
  lemma RowAppends(env: Env, st: St, i: nat)
    requires env.Ready() && i < env.indexCount && st.offset <= env.cap
    requires var h := HashRow(env, i);
      && h.localStoreIndex <= env.indexCount
      && var x := RowXalz(env, DescriptorRow(env, h.localStoreIndex));
      && x.Some? && x.value.magic == XALZ_MAGIC && x.value.size > 0
      && var name := RowName(env, st.offset, h.Hash32());
      && name.text.Some? && name.offset + ASSEMBLY_SIZE <= env.cap
    ensures var h := HashRow(env, i);
      var x := RowXalz(env, DescriptorRow(env, h.localStoreIndex)).value;
      var name := RowName(env, st.offset, h.Hash32()).text.value;
      RowStep(env, st, i).st.nodes == st.nodes + [Entry(StoredName(name), x.size)]
  {
    var h := HashRow(env, i);
    var d := DescriptorRow(env, h.localStoreIndex);
    var name := RowName(env, st.offset, h.Hash32());
    var x := RowXalz(env, d).value;
    var appended := Appended(env.cap, name.offset, st.nodes, name.text, x.size);
    PayloadFacts(env, St(appended.offset, appended.nodes, st.writes), i, d, x, name.text);
  }

  /** A row whose slot is out of range, whose inner header is short, has the wrong magic or size 0 changes nothing but the name's arena copy. */
  lemma RowSkipped(env: Env, st: St, i: nat)
    requires env.Ready() && i < env.indexCount && st.offset <= env.cap
    requires var h := HashRow(env, i);
      h.localStoreIndex > env.indexCount ||
      var x := RowXalz(env, DescriptorRow(env, h.localStoreIndex));
      x.None? || x.value.magic != XALZ_MAGIC || x.value.size == 0
    ensures var r := RowStep(env, st, i);
      r.stop.None? && r.st.nodes == st.nodes && r.st.writes == st.writes
  {
  }

  /** What every row promises about the state it leaves, given the state it found. */
  predicate RowPromise(env: Env, st: St, r: Step, i: nat)
  {
    && st.offset <= r.st.offset <= env.cap
    && Extends(st.nodes, r.st.nodes, 1)
    && Extends(st.writes, r.st.writes, 1)
    && (!env.dump ==> r.st.writes == st.writes)
    && StopsAt(r.stop, i)
  }

  /** A loop body that keeps the row promise from every state within the arena. */
  ghost predicate Keeps(env: Env, step: (St, nat) -> Step)
  {
    forall st: St, i: nat :: st.offset <= env.cap ==> RowPromise(env, st, step(st, i), i)
  }

  /** The decoder's loop body keeps the row promise. */
  lemma RowsKeep(env: Env)
    ensures Keeps(env, Rows(env))
  {
    forall st: St, i: nat | st.offset <= env.cap
      ensures RowPromise(env, st, Rows(env)(st, i), i)
    {
      RowFacts(env, st, i);
    }
  }

  /**
   * After `k` passes of a body that keeps the row promise: the cursor has
   * moved forwards within the arena, the catalog and the written files
   * begin with what they held before and have grown by at most one each a
   * row, nothing is written unless extraction was asked for, and a stop
   * names a row already reached.
   */
  lemma {:induction false} RunKeeps(env: Env, step: (St, nat) -> Step, init: St, k: nat)
    requires init.offset <= env.cap && Keeps(env, step)
    ensures var r := Run(step, init, k);
      && init.offset <= r.st.offset <= env.cap
      && Extends(init.nodes, r.st.nodes, k)
      && Extends(init.writes, r.st.writes, k)
      && (!env.dump ==> r.st.writes == init.writes)
      && (r.stop.Some? ==> (r.stop.value.Aborted? || r.stop.value.Crashed?) && r.stop.value.row < k)
  {
    if k > 0 {
      RunKeeps(env, step, init, k - 1);
      var prev := Run(step, init, k - 1);
      if prev.stop.None? {
        var r := step(prev.st, k - 1);
        assert RowPromise(env, prev.st, r, k - 1);
        assert r.st.nodes[..|init.nodes|] == r.st.nodes[..|prev.st.nodes|][..|init.nodes|];
        assert r.st.writes[..|init.writes|] == r.st.writes[..|prev.st.writes|][..|init.writes|];
      }
    }
  }

  /** The row loop of the decoder, from the state the tables leave. */
  lemma RowLoop(env: Env, init: St)
    requires init.offset <= env.cap
    ensures var r := RunRows(env, init, env.indexCount);
      && init.offset <= r.st.offset <= env.cap
      && Extends(init.nodes, r.st.nodes, env.indexCount)
      && Extends(init.writes, r.st.writes, env.indexCount)
      && (!env.dump ==> r.st.writes == init.writes)
      && (r.stop.Some? ==> (r.stop.value.Aborted? || r.stop.value.Crashed?) && r.stop.value.row < env.indexCount)
  {
    RowsKeep(env);
    RunKeeps(env, Rows(env), init, env.indexCount);
  }

  /** A stop after `k` passes was made by the pass over the row it names, and no earlier pass stopped. */
  lemma {:induction false} RunFirstStop(env: Env, step: (St, nat) -> Step, init: St, k: nat)
    requires init.offset <= env.cap && Keeps(env, step)
    requires Run(step, init, k).stop.Some?
    ensures var s := Run(step, init, k).stop.value;
      && (s.Aborted? || s.Crashed?) && s.row < k
      && Run(step, init, s.row).stop.None?
      && step(Run(step, init, s.row).st, s.row) == Run(step, init, k)
  {
    var prev := Run(step, init, k - 1);
    if prev.stop.Some? {
      RunFirstStop(env, step, init, k - 1);
    } else {
      RunKeeps(env, step, init, k - 1);
      assert RowPromise(env, prev.st, step(prev.st, k - 1), k - 1);
    }
  }

  /** After the first pass that stops, at pass `i`, the loop ends in the state that pass left. */
  lemma RunFirstStopFinal(step: (St, nat) -> Step, init: St, i: nat, n: nat)
    requires i < n && Run(step, init, i).stop.None? && step(Run(step, init, i).st, i).stop.Some?
    ensures Run(step, init, n) == step(Run(step, init, i).st, i)
  {
    RunStopPersists(step, init, i + 1, n);
  }

  /**
   * The first row that stops the loop decides how the decode ends: its abort
   * or fault is the status returned, with the catalog, the cursor and the
   * files as that row left them.
   */
  lemma FirstStopIsStatus(env: Env, init: St, i: nat)
    requires i < env.indexCount
    requires Run(Rows(env), init, i).stop.None?
    requires RowAt(env, Run(Rows(env), init, i).st, i).stop.Some?
    ensures var r := RowAt(env, Run(Rows(env), init, i).st, i);
      var f := Finish(env, init);
      && f.status == r.stop.value
      && f.entries == r.st.nodes && f.writes == r.st.writes
      && f.arena == Some(ArenaState(env.cap, r.st.offset))
  {
    RunFirstStopFinal(Rows(env), init, i, env.indexCount);
  }

  /** Conversely, a decode that ends in an abort or a fault ends at the first row that stopped. */
  lemma StatusIsFirstStop(env: Env, init: St)
    requires init.offset <= env.cap
    requires Finish(env, init).status.Aborted? || Finish(env, init).status.Crashed?
    ensures var f := Finish(env, init);
      var i := f.status.row;
      && i < env.indexCount
      && Run(Rows(env), init, i).stop.None?
      && RowAt(env, Run(Rows(env), init, i).st, i).stop == Some(f.status)
  {
    RowsKeep(env);
    RunFirstStop(env, Rows(env), init, env.indexCount);
  }

  /**
   * Row `i` of the loop, from state `st`, passes its checks, has a name, fits
   * its node and both buffers, and its decompression returns `<= 0`.
   */
  predicate DecompressFails(env: Env, st: St, i: nat)
  {
    && env.Ready() && i < env.indexCount && st.offset <= env.cap
    && var h := HashRow(env, i);
    && h.localStoreIndex <= env.indexCount
    && var d := DescriptorRow(env, h.localStoreIndex);
    && var x := RowXalz(env, d);
    && x.Some? && x.value.magic == XALZ_MAGIC && x.value.size > 0
    && var name := RowName(env, st.offset, h.Hash32());
    && name.text.Some?
    && name.offset + ASSEMBLY_SIZE + d.dataSize + x.value.size <= env.cap
    && d.dataSize != 0
    && env.lz4(Available(env.blob, d.dataOffset + XALZ_SIZE, d.dataSize), ToInt32(x.value.size)).ret <= 0
  }

  /**
   * A failed decompression in the first row that stops ends the whole decode
   * with `Aborted(row, Decompress)`, and the row's entry stays in the catalog.
   */
  lemma DecompressAborts(env: Env, init: St, i: nat)
    requires Run(Rows(env), init, i).stop.None?
    requires DecompressFails(env, Run(Rows(env), init, i).st, i)
    ensures var st := Run(Rows(env), init, i).st;
      var h := HashRow(env, i);
      var x := RowXalz(env, DescriptorRow(env, h.localStoreIndex)).value;
      var name := RowName(env, st.offset, h.Hash32()).text.value;
      var f := Finish(env, init);
      f.status == Aborted(i, Decompress) && f.entries == st.nodes + [Entry(StoredName(name), x.size)]
  {
    var st := Run(Rows(env), init, i).st;
    var h := HashRow(env, i);
    var d := DescriptorRow(env, h.localStoreIndex);
    var x := RowXalz(env, d).value;
    var name := RowName(env, st.offset, h.Hash32());
    var appended := Appended(env.cap, name.offset, st.nodes, name.text, x.size);
    PayloadAborts(env, St(appended.offset, appended.nodes, st.writes), i, d, x, name.text);
    RowAppends(env, st, i);
    FirstStopIsStatus(env, init, i);
  }

  /**
   * `sizeof(assembly_T) * entry_count` does not wrap but `entry_count * (1024 * 1024)`
   * does: only the entry count modulo 4096 buys megabytes, so a blob
   * declaring 4096 entries gets a smaller arena than one declaring 4095.
   */
  lemma {:induction false} ArenaWraps(e: nat)
    requires e < U32_LIMIT
    ensures ArenaCapacity(e) == (e % 4096) * ONE_MIB + ASSEMBLY_SIZE * e
    ensures e >= 1 ==> ArenaCapacity(e) >= ASSEMBLY_SIZE
    ensures e % 4096 == 0 ==> ArenaCapacity(e) == ASSEMBLY_SIZE * e
  {
    var q, r := e / 4096, e % 4096;
    assert e * ONE_MIB == q * U32_LIMIT + r * ONE_MIB;
    assert 0 <= r * ONE_MIB < U32_LIMIT;
    assert (e * ONE_MIB) / U32_LIMIT == q;
  }

  /** The decode that reaches the row loop returns `count`, the arena and the catalog the loop leaves. */
  lemma FinishFacts(env: Env, init: St)
    requires init.offset <= env.cap && init.writes == []
    ensures var r := Finish(env, init);
      && r.count == env.indexCount
      && r.arena.Some? && r.arena.value.cap == env.cap && init.offset <= r.arena.value.offset <= env.cap
      && Extends(init.nodes, r.entries, env.indexCount)
      && |r.writes| <= env.indexCount
      && (!env.dump ==> r.writes == [])
      && !r.status.Exited?
      && ((r.status.Aborted? || r.status.Crashed?) ==> r.status.row < env.indexCount)
  {
    RowLoop(env, init);
  }

  /** The hash tables leave the environment as it was, and an early exit here has `count` set. */
  lemma HashTablesFacts(env: Env, init: St)
    requires env.entryCount >= 1 && init.offset <= env.cap && init.writes == []
    ensures var p := HashTables(env, init);
      && (p.Ready? ==> p.init.nodes == init.nodes)
      && (p.Early? ==>
            && p.result.arena == Some(ArenaState(env.cap, p.result.arena.value.offset))
            && p.result.arena.value.offset <= env.cap
            && p.result.entries == init.nodes && p.result.writes == [] && p.result.status.Exited?
            && !BeforeCount(p.result.status.exit) && p.result.count == env.indexCount)
  {
  }

  /** Opening the arena and reaching the row loop: the wrapped capacity and the sentinel node. */
  lemma OpenArenaReady(blob: Bytes, path: string, manifestFile: Option<seq<string>>, dump: bool,
                       lz4: (Bytes, int) -> Lz4Out, e: nat, m: nat)
    requires 1 <= e < U32_LIMIT
    ensures var p := OpenArena(blob, path, manifestFile, dump, lz4, e, m);
      p.Ready? ==>
        p.env.indexCount == m && p.env.cap == ArenaCapacity(e) && p.env.dump == dump && p.init.nodes == [SENTINEL]
  {
    ArenaWraps(e);
    var cap := ArenaCapacity(e);
    var mpath := Stored(cap, ASSEMBLY_SIZE, ChangeFileExt(path, MANIFEST_EXT));
    var lines := if mpath.text.Some? then manifestFile else None;
    var off2 := mpath.offset + DESCRIPTOR_SIZE * e;
    if off2 <= cap && DescriptorOffset(e) <= |blob| && m != 0 {
      HashTablesFacts(Env(blob, path, lines, dump, lz4, e, m, cap), St(off2, [SENTINEL], []));
    }
  }

  /**
   * An early return after a valid header: the arena has the wrapped capacity,
   * the catalog is the sentinel node, and `count` is 0 until the descriptor
   * table has been read.
   */
  lemma OpenArenaEarly(blob: Bytes, path: string, manifestFile: Option<seq<string>>, dump: bool,
                       lz4: (Bytes, int) -> Lz4Out, e: nat, m: nat)
    requires 1 <= e < U32_LIMIT
    ensures var p := OpenArena(blob, path, manifestFile, dump, lz4, e, m);
      p.Early? ==>
        && p.result.arena.Some?
        && p.result.arena.value.cap == ArenaCapacity(e)
        && p.result.arena.value.offset <= p.result.arena.value.cap
        && p.result.entries == [SENTINEL] && p.result.writes == [] && p.result.status.Exited?
        && (BeforeCount(p.result.status.exit) ==> p.result.count == 0)
        && (!BeforeCount(p.result.status.exit) ==> p.result.count == m)
  {
    ArenaWraps(e);
    var cap := ArenaCapacity(e);
    var mpath := Stored(cap, ASSEMBLY_SIZE, ChangeFileExt(path, MANIFEST_EXT));
    var lines := if mpath.text.Some? then manifestFile else None;
    var off2 := mpath.offset + DESCRIPTOR_SIZE * e;
    if off2 <= cap && DescriptorOffset(e) <= |blob| && m != 0 {
      HashTablesFacts(Env(blob, path, lines, dump, lz4, e, m, cap), St(off2, [SENTINEL], []));
    }
  }

  /**
   * Before the row loop: a rejected header leaves no arena; otherwise the
   * arena has the wrapped capacity, the catalog is the sentinel node, and
   * `count` is 0 until the descriptor table is read.
   */
  lemma PreludeFacts(blob: Bytes, path: string, manifestFile: Option<seq<string>>, dump: bool,
                     lz4: (Bytes, int) -> Lz4Out)
    ensures var p := Prelude(blob, path, manifestFile, dump, lz4);
      var accepted := path != [] && HEADER_SIZE <= |blob| &&
                      HeaderAt(blob, 0).magic == XABA_MAGIC && HeaderAt(blob, 0).entryCount >= 1;
      && (!accepted ==> p.Early? && p.result == DumpResult(0, None, [], [], p.result.status) && p.result.status.Exited?
                        && BeforeCount(p.result.status.exit))
      && (accepted ==> p.Ready? ==>
            && p.env.indexCount == HeaderAt(blob, 0).indexEntryCount
            && p.env.cap == ArenaCapacity(HeaderAt(blob, 0).entryCount)
            && p.env.dump == dump
            && p.init.nodes == [SENTINEL])
      && (accepted ==> p.Early? ==>
            && p.result.arena.Some?
            && p.result.arena.value.cap == ArenaCapacity(HeaderAt(blob, 0).entryCount)
            && p.result.arena.value.offset <= p.result.arena.value.cap
            && p.result.entries == [SENTINEL] && p.result.writes == [] && p.result.status.Exited?
            && (BeforeCount(p.result.status.exit) ==> p.result.count == 0)
            && (!BeforeCount(p.result.status.exit) ==> p.result.count == HeaderAt(blob, 0).indexEntryCount))
  {
    if path != [] && HEADER_SIZE <= |blob| {
      var h := HeaderAt(blob, 0);
      if h.magic == XABA_MAGIC && h.entryCount >= 1 {
        OpenArenaReady(blob, path, manifestFile, dump, lz4, h.entryCount, h.indexEntryCount);
        OpenArenaEarly(blob, path, manifestFile, dump, lz4, h.entryCount, h.indexEntryCount);
      }
    }
  }

  /** `count` is 0 on the exits before the descriptor table is read, and the hash table's length afterwards. */
  lemma DumpCount(blob: Bytes, path: string, manifestFile: Option<seq<string>>, dump: bool,
                  lz4: (Bytes, int) -> Lz4Out)
    ensures var r := DumpSpec(blob, path, manifestFile, dump, lz4);
      && (r.status.Exited? && BeforeCount(r.status.exit) ==> r.count == 0)
      && (!(r.status.Exited? && BeforeCount(r.status.exit)) ==>
            HEADER_SIZE <= |blob| && r.count == HeaderAt(blob, 0).indexEntryCount)
  {
    PreludeFacts(blob, path, manifestFile, dump, lz4);
    var p := Prelude(blob, path, manifestFile, dump, lz4);
    if p.Ready? {
      FinishFacts(p.env, p.init);
    }
  }

  /**
   * The arena exists exactly when the path is non-empty and the header is
   * whole, carries the magic and declares at least one entry; then its
   * capacity is the wrapped size, and the catalog starts with the zeroed
   * sentinel node.
   */
  lemma DumpArena(blob: Bytes, path: string, manifestFile: Option<seq<string>>, dump: bool,
                  lz4: (Bytes, int) -> Lz4Out)
    ensures var r := DumpSpec(blob, path, manifestFile, dump, lz4);
      && (r.arena.Some? <==>
            path != [] && HEADER_SIZE <= |blob| &&
            HeaderAt(blob, 0).magic == XABA_MAGIC && HeaderAt(blob, 0).entryCount >= 1)
      && (r.arena.None? ==> r.count == 0 && r.entries == [] && r.writes == [] && r.status.Exited?)
      && (r.arena.Some? ==>
            && r.arena.value.cap == ArenaCapacity(HeaderAt(blob, 0).entryCount)
            && r.arena.value.offset <= r.arena.value.cap
            && |r.entries| >= 1 && r.entries[0] == SENTINEL)
  {
    PreludeFacts(blob, path, manifestFile, dump, lz4);
    var p := Prelude(blob, path, manifestFile, dump, lz4);
    if p.Ready? {
      FinishFacts(p.env, p.init);
    }
  }

  /** Files are written only when extraction was asked for, and a stop names a row of the hash table. */
  lemma DumpWrites(blob: Bytes, path: string, manifestFile: Option<seq<string>>, dump: bool,
                   lz4: (Bytes, int) -> Lz4Out)
    ensures var r := DumpSpec(blob, path, manifestFile, dump, lz4);
      && (!dump ==> r.writes == [])
      && (|r.writes| <= r.count)
      && ((r.status.Aborted? || r.status.Crashed?) ==> r.status.row < r.count)
  {
    PreludeFacts(blob, path, manifestFile, dump, lz4);
    var p := Prelude(blob, path, manifestFile, dump, lz4);
    if p.Ready? {
      FinishFacts(p.env, p.init);
    }
  }
}
