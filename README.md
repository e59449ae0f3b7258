# AssemblyStore blob decoder, modelled in Dafny

`dabu` extracts the .NET assemblies that Xamarin packs into an Android
AssemblyStore blob (`assemblies.blob`). This project models the decoder in
`dabu.c` and proves properties of it. The decoder is `assemblies_dump` and
the helpers it calls. It works as follows:

1. It checks the 20-byte `XABA` header.
2. It sizes a bump arena (`block_T`) from the header's entry count.
3. It puts a sentinel node in the catalog (the `assembly_T` list).
4. It reads the descriptor table and the two hash tables into the arena.
5. It then visits every hash32 row in order. Each row is skipped, or
   appended to the catalog and decompressed, or it stops the whole decode.
   Names come from the companion `.manifest` file when one can be opened,
   and otherwise have the form `0x<hash32>.dll`.

The modules follow the parts of the source:

| file | module | models |
|---|---|---|
| `wrappers.dfy` | `Wrappers` | `Option`, for every pointer that may be NULL |
| `arena.dfy` | `Arena` | `block_T`: `block_create`, `block_alloc`, `block_reset`, `block_free`, as a class with `cap` and `offset` fields |
| `layout.dfy` | `Layout`, `LayoutFacts` | the packed little-endian records and the table offsets, with encoders and round trips |
| `text.dfy` | `Text` | `strrchr`, `change_file_ext`, `get_parent_dir` and the `0x%x` name, without their allocations |
| `strings.dfy` | `Strings` | `string_new` and `string_concat`, plus the arena copies made by the path helpers; each is a method on a `Block` and a function giving the same result |
| `manifest.dfy` | `Manifest` | `get_dllname_from_manifest`: the line parse, the first-match scan and the `/` flattening |
| `catalog.dfy` | `Catalog` | `list_init` and `list_append`, as a class holding the nodes in list order |
| `decoder.dfy` | `Decoder` | `assemblies_dump` as functions: one row, the row loop, and every exit path |
| `dump.dfy` | `Dump` | `assemblies_dump` as the source runs it, over a `Block`, a `Catalog` and arrays, proved equal to the `Decoder` functions |
| `props.dfy` | `Properties` | what one row, the loop and a whole call guarantee |

Only the arena's capacity and cursor are modelled, not its bytes. Every
allocation the decoder makes is charged to the cursor at its source size:

- 1040 bytes per catalog node;
- 24 bytes per `string_T`;
- `strlen + 1` bytes per copied string;
- 24 bytes per descriptor and 20 bytes per hash row;
- `data_size` bytes for the compressed payload and `xalz.size` bytes for the output.

So arena exhaustion happens on the same rows as in the source.

## Model

| member | source | states |
|---|---|---|
| Arena.Bump | dabu.c:73-85 | the cursor after an allocation exists exactly when `offset + size <= cap`, and then it is `offset + size`, still within the capacity |
| Arena.Block.constructor | dabu.c:39-44 | a new arena holds `size` bytes and its cursor is 0 |
| Arena.Block.Create | dabu.c:27-45 | `block_create` returns NULL exactly for size 0; otherwise a fresh arena with `cap == size` and `offset == 0` |
| Arena.Block.Reset | dabu.c:47-54 | the cursor returns to 0; the capacity and the buffer are unchanged |
| Arena.Block.Alloc | dabu.c:72-85 | succeeds exactly when `offset + size <= cap`; it then returns the old cursor as the slice start and advances the cursor by `size`; on failure nothing changes; `offset <= cap` is kept |
| Arena.Block.Free | dabu.c:56-70 | the caller's handle becomes NULL and the buffer is released; the size field is unchanged |
| Layout.U32At | dabu.c:136-175 | a 32-bit record field read from four little-endian bytes is below 2^32 |
| Layout.U64At | dabu.c:158-162 | the 8-byte union read as `hash64` is below 2^64 |
| Layout.U32RoundTrip | dabu.c:136-175 | reading back the four little-endian bytes of a 32-bit value gives the value |
| Layout.U32BytesOf | dabu.c:136-175 | re-encoding a value read from four bytes gives those bytes back |
| Layout.U64RoundTrip | dabu.c:158-162 | reading back the eight little-endian bytes of a 64-bit value gives the value |
| Layout.HashUnion | dabu.c:158-162 | the `hash32` member of the union is the 32-bit value of the row's first four bytes |
| LayoutFacts.HeaderRoundTrip | dabu.c:136-144 | a header of 32-bit fields encodes to 20 bytes that `header_T` reads back unchanged |
| LayoutFacts.DescriptorRoundTrip | dabu.c:146-155 | a descriptor encodes to 24 bytes that `descriptor_T` reads back unchanged |
| LayoutFacts.HashRoundTrip | dabu.c:157-167 | a hash row encodes to 20 bytes that `hash_T` reads back unchanged |
| LayoutFacts.XalzRoundTrip | dabu.c:169-175 | an inner header encodes to 12 bytes that `xalz_T` reads back unchanged |
| LayoutFacts.DescriptorTableAt | dabu.c:453-464 | in a concatenated table of encoded descriptors, record `i` is read back at offset `24*i` from the table's start |
| LayoutFacts.HashTableAt | dabu.c:482-513 | in a concatenated table of encoded hash rows, row `i` is read back at offset `20*i` from the table's start |
| LayoutFacts.IndexRoundTrip | dabu.c:390-513 | in a blob made of a header, `E` descriptors and two tables of `M` hash rows, reading at the decoder's offsets gives back the header, every descriptor and every row of both tables; the blob is `20 + 24E + 40M` bytes |
| LayoutFacts.IndexLength | dabu.c:453-513 | the encoded index area is `20 + 24E + 40M` bytes long |
| LayoutFacts.IndexHeader | dabu.c:211-230 | the header is read back from offset 0 of the encoded blob |
| LayoutFacts.IndexDescriptor | dabu.c:453-464 | descriptor `i` is read back from offset `20 + 24i` |
| LayoutFacts.IndexHash32 | dabu.c:482-493 | hash32 row `i` is read back from offset `20 + 24E + 20i` |
| LayoutFacts.IndexHash64 | dabu.c:502-513 | hash64 row `i` is read back from offset `20 + 24E + 20M + 20i` |
| Text.LastIndexOf | dabu.c:259 | `strrchr`: None exactly when the character is absent; otherwise the position holds it and no later position does |
| Text.LastIndexOfUnique | dabu.c:259 | any position holding the last occurrence is the one `strrchr` finds |
| Text.ChangeFileExtAt | dabu.c:254-276 | with the last '.' at `dot`, the result is `path[..dot] + ext` exactly when `dot > 0` and the next character exists and is 'b'; otherwise NULL |
| Text.ChangeFileExtOfBlobPath | dabu.c:254-276 | `stem.b…` (no further '.') becomes `stem.manifest` whatever dots the stem holds |
| Text.ParentDirCases | dabu.c:278-300 | NULL exactly when the path has neither '/' nor '\\'; otherwise a non-empty prefix ending in the last '/', or in the last '\\' when there is no '/' |
| Text.ParentDirOfJoin | dabu.c:278-300 | the parent directory of `dir + name` is `dir` when `dir` ends in '/' and `name` has none |
| Text.HexRoundTrip | dabu.c:534 | `%x` output is hexadecimal digits that read back as the value |
| Text.HexLength | dabu.c:534 | a value below 16^k prints in at most k digits |
| Text.FallbackNameFits | dabu.c:533-534 | for every 32-bit hash, `0x<hex>.dll` and its terminator fit the 16-byte buffer, and the hash is recovered from the digits |
| Strings.Stored | dabu.c:268-275 | a copy of `s` exists exactly when `s` is not NULL and its `strlen + 1` bytes fit; then it is `s` and the cursor advances by that much, otherwise the cursor is unchanged |
| Strings.Store | dabu.c:268-275 | the method allocating a copy ends in the state `Stored` gives |
| Strings.ChangeFileExtIn | dabu.c:254-276 | `change_file_ext` including its allocation: the swapped path when it fits, NULL otherwise |
| Strings.ParentDirIn | dabu.c:278-300 | `get_parent_dir` including its allocation: the directory when it fits, NULL otherwise |
| Strings.StringNewSpec | dabu.c:87-106 | the result and the cursor of `string_new` stay within the arena |
| Strings.StringConcatSpec | dabu.c:108-131 | the result and the cursor of `string_concat` stay within the arena |
| Strings.StringNew | dabu.c:87-106 | the method ends in the outcome and cursor `StringNewSpec` gives |
| Strings.StringConcat | dabu.c:108-131 | the method ends in the outcome and cursor `StringConcatSpec` gives, checking the stray terminator at `buffer[len]` |
| Strings.StringConcatNeedsSpareByte | dabu.c:108-131 | a concatenation succeeds exactly when the header, the `len` bytes and one spare byte for the stray terminator fit; it then holds `text + extra` with `cap == len` |
| Strings.StringNewFits | dabu.c:87-106 | `string_new` succeeds exactly when the header and `strlen + 1` bytes fit; it then holds the text with `cap == strlen + 1` |
| Manifest.WordLength | dabu.c:316 | the `%s` field at the start of a string is a run with no white space, ended by white space or the end |
| Manifest.Saturate64 | dabu.c:316 | a `%lx` value read past 64 bits is below 2^64 |
| Manifest.DllNameFromManifest | dabu.c:302-346 | the scan ends with the arena copy of the first matching line's name, or NULL, exactly as `Stored(Lookup(lines, hash))` |
| Manifest.LookupFirstMatch | dabu.c:312-345 | when line `k` matches and no earlier line does, the result is line `k`'s name |
| Manifest.LookupNone | dabu.c:312-345 | NULL exactly when no line matches |
| Manifest.LookupFromSomeLine | dabu.c:312-345 | a resolved name is the name of some matching line |
| Manifest.FlattenAt | dabu.c:329-330 | only the last '/' of the name becomes '_' |
| Manifest.FlattenNoSlash | dabu.c:329-330 | a name without '/' is unchanged |
| Manifest.FlattenOneLevel | dabu.c:329-330 | `lib/arm64/Foo.dll` becomes `lib/arm64_Foo.dll`; earlier '/' characters stay |
| Manifest.MatchedName | dabu.c:319-330 | a matched name is `name + ".dll"` with at most its last '/' changed to '_', and it fits the 4096-byte buffer with its terminator |
| Manifest.WordLengthOfWord | dabu.c:316 | a word followed by white space or the end is read as exactly that word |
| Manifest.WordsSkipSpaces | dabu.c:316 | leading white space does not change the fields read |
| Manifest.WordsOfJoin | dabu.c:316 | fields joined by spaces are read back as the same fields |
| Manifest.HexFieldOf | dabu.c:316 | `0x` followed by `%x` digits is a hex field that reads back as the value |
| Manifest.ParseFormatRoundTrip | dabu.c:316-317 | a manifest line laid out as `0x<hash32> 0x<hash64> <index> <index2> <name>` parses back to both hashes and the name |
| Manifest.FormatWords | dabu.c:316 | such a line starts with the literal `0x` and splits back into its five fields |
| Manifest.DecimalIsWord | dabu.c:316 | a `%d` field contains no white space |
| Catalog.StoredName | dabu.c:201 | the name a node keeps is the first `MAX_NAME` characters at most, and the whole name when it fits |
| Catalog.Appended | dabu.c:184-208 | the old nodes keep their order and values; exactly one node `(name, size)` is added at the tail when it fits and the name is not NULL; a node that does not fit leaves the list unchanged; a fitting node with a NULL name faults |
| Catalog.Catalog.constructor | dabu.c:177-182 | an empty list |
| Catalog.Catalog.Init | dabu.c:177-182 | the list is the zeroed sentinel node when it fits, and empty otherwise; the cursor moves by the node size only on success |
| Catalog.Catalog.Append | dabu.c:184-208 | the nodes, the cursor and the fault flag are those `Appended` gives |
| Decoder.ToInt32 | dabu.c:607 | the `(int)` of a 32-bit size is `<= 0` exactly when the size is 0 or at least 2^31 |
| Decoder.CheckedIndex | dabu.c:232-252 | a slot is returned exactly when `index <= size`, which includes `index == size`, and it is `index` |
| Decoder.RowName | dabu.c:532-539 | finding a row's name moves the cursor forwards and stays within the arena |
| Decoder.Available | dabu.c:586-597 | the compressed buffer holds the blob's bytes from the payload's start, then zeros past the end of the blob |
| Decoder.FitTo | dabu.c:599-607 | the destination buffer holds `xalz.size` bytes: the decompressor's output, then zeros |
| Decoder.RunStopPersists | dabu.c:583-635 | after a `goto EXIT` no later row changes anything |
| Decoder.Prelude | dabu.c:369-513 | a decode that reaches the row loop has its tables inside the blob, its cursor within the arena and nothing written |
| Decoder.OpenArena | dabu.c:418-473 | as for `Prelude`, from a valid header on |
| Decoder.HashTables | dabu.c:475-513 | as for `Prelude`, keeping the environment, from the hash tables on |
| Dump.ProcessPayload | dabu.c:578-612 | the payload allocation, the read, the destination allocation and decompression end in the state `PayloadStep` gives |
| Dump.WriteOutput | dabu.c:614-631 | the output path and the write end in the state `OutputStep` gives |
| Dump.ProcessRow | dabu.c:517-633 | one row ends in the cursor, catalog, written files and stop that `RowStep` gives |
| Dump.ReadDescriptors | dabu.c:453-464 | the reads succeed exactly when the blob holds `E` descriptors after the header, and then the array holds them in file order |
| Dump.ReadHashes | dabu.c:482-513 | the reads succeed exactly when the blob holds `M` rows from `start`, and then the array holds them in file order |
| Dump.RunRowLoop | dabu.c:517-648 | the loop ends in the catalog, written files, cursor and status that `Finish` gives |
| Dump.ReadHashTables | dabu.c:475-513 | the hash-table stage ends as `HashTables` says, and the array holds the hash32 rows |
| Dump.Open | dabu.c:418-513 | everything from arena creation to the hash tables ends as `OpenArena` says |
| Dump.AssembliesDump | dabu.c:363-649 | the returned count, the catalog, the written files, the arena (or none) and the way the call ended are those `DumpSpec` gives |
| Properties.OutputFacts | dabu.c:614-631 | the output step leaves the catalog alone, moves the cursor forwards within the arena, writes at most one file (the decompressed data, only when dumping), and a stop names this row |
| Properties.PayloadFacts | dabu.c:578-612 | the payload steps leave the catalog alone, move the cursor forwards within the arena, write at most one file and only when dumping, and a stop names this row |
| Properties.PayloadWrite | dabu.c:599-625 | a file that is written holds exactly `xalz.size` bytes |
| Properties.OutputAborts | dabu.c:614-631 | the output step aborts exactly when the name is NULL or the `string_T` header does not fit, faults exactly when the buffer allocation fails or the stray terminator lands past the arena, and aborts after writing exactly when dumping and the size read as an `int` is `<= 0`; a file is written exactly when the path was made and dumping was asked for, and it is `(path, data)` |
| Properties.PayloadAborts | dabu.c:578-612 | the payload steps abort exactly when the compressed buffer does not fit, when `data_size == 0` (a zero-byte `fread` without end of file), when the destination buffer does not fit, or when decompression returns `<= 0`, each under its own condition; a payload cut short by the end of the blob does not abort; past these the row ends as the output step does |
| Properties.RowFacts | dabu.c:517-633 | a row moves the cursor forwards within the arena, adds at most one catalog entry and at most one written file (none without dumping), and a stop is an abort or fault of this row |
| Properties.RowEntry | dabu.c:525-576 | a row that adds an entry had its slot in range, an inner header with the `XALZ` magic and a non-zero size, and a name; the entry is that name (cut to `MAX_NAME`) and `xalz.size`, and the name is the manifest's first match for `hash32` when there is a manifest, and `0x<hash32>.dll` otherwise |
| Properties.RowAppends | dabu.c:576-612 | a row that passes its checks, has a name and whose node fits keeps its entry, even when allocation, reading, decompression or writing then fails |
| Properties.RowSkipped | dabu.c:525-573 | a row whose slot is past `count`, whose inner header is short, or has the wrong magic or size 0, adds nothing and does not stop the loop |
| Properties.RowsKeep | dabu.c:517-633 | every row of the decoder keeps the row promise of `RowFacts` |
| Properties.RunKeeps | dabu.c:517-633 | after `k` rows the cursor has moved forwards within the arena, the catalog and the written files extend what they were by at most one each per row, nothing is written without dumping, and a stop names a row already visited |
| Properties.RowLoop | dabu.c:517-633 | the same, for all `index_entry_count` rows |
| Properties.RunFirstStop | dabu.c:583-635 | a stop after `k` rows was made by the row it names, below `k`, no earlier row stopped, and the loop's state is what that row left |
| Properties.RunFirstStopFinal | dabu.c:583-635 | after the first row that stops, the loop ends in the state that row left |
| Properties.FirstStopIsStatus | dabu.c:583-648 | the first row that stops the loop gives the decode's status, and the catalog, cursor and files it leaves are the ones returned |
| Properties.StatusIsFirstStop | dabu.c:583-648 | a decode ending in an abort or a fault ends at a row below `count`, reached with the loop still running, whose own stop is that status |
| Properties.DecompressAborts | dabu.c:576-610 | a row reached with the loop still running that passes its checks, has a name, fits its node and both buffers and whose decompression returns `<= 0` ends the decode with `Aborted(row, Decompress)`, and its entry stays as the catalog's last |
| Properties.ArenaWraps | dabu.c:419 | the arena capacity is `(E mod 4096) * 2^20 + 1040E`; it always holds the sentinel node; for `E` a multiple of 4096 it is only `1040E` |
| Properties.FinishFacts | dabu.c:517-648 | a decode that reaches the loop returns `index_entry_count`, keeps an arena within its capacity, a catalog extending the one before the loop, at most one file per row (none without dumping), and does not end through an early exit |
| Properties.HashTablesFacts | dabu.c:475-513 | a return during the hash-table stage has `count` set, the catalog as it stood and nothing written |
| Properties.OpenArenaReady | dabu.c:418-513 | a decode that gets past a valid header to the row loop has the wrapped arena capacity, `index_entry_count` rows, and the sentinel node as its catalog |
| Properties.OpenArenaEarly | dabu.c:418-513 | an early return after a valid header has the arena at the wrapped capacity, the sentinel node as its catalog and nothing written, and reports 0 before the descriptors are read and `index_entry_count` after |
| Properties.PreludeFacts | dabu.c:369-513 | a path that is empty, a short header, a bad magic or `entry_count == 0` returns 0 with no arena, no entries and nothing written; otherwise as in `OpenArenaReady` and `OpenArenaEarly` |
| Properties.DumpCount | dabu.c:392-648 | the call returns 0 on the exits up to the `index_entry_count == 0` check, and `index_entry_count` on every other path that returns, whatever rows are skipped or abort; the count a `Crashed` result carries means nothing, since the source does not return there in any defined way |
| Properties.DumpArena | dabu.c:363-429 | the arena exists exactly when the path is non-empty and the header is whole, has the magic and declares entries; then it has the wrapped capacity, the cursor is within it, and the catalog starts with the zeroed sentinel |
| Properties.DumpWrites | dabu.c:623-631 | on every path that returns, files are written only when dumping, at most one per row, and an abort names a row below the returned count; a fault names such a row too, though the source reaches undefined behaviour there instead of returning |

## Left out

- File I/O is not modelled. `fopen`, `fseek`, `fread`, `ftell`, `fclose` and `write_file` (dabu.c:348-361) become values: the blob is a byte sequence, the manifest a sequence of lines (or none when it does not open), and each dump is recorded as a `(path, bytes)` write.
- The blob is assumed to open. A failed `fopen` of the blob returns 0 before anything else (dabu.c:380-386); the model starts from the blob's bytes.
- `write_file` is assumed to write every byte. A short or failed write is not modelled; only the `(int)` of a full write's size decides the `ret <= 0` check (dabu.c:625-630).
- `LZ4_decompress_fast` comes from `lz4.c`, which is not part of this model. It is a function parameter that returns an `int` and the bytes it wrote.
- The `dabu_debug` environment lookup and all logging (dabu.c:12-13, dabu.c:447-451, dabu.c:556-560) only print diagnostics.
- `fgets` splits lines longer than 1023 characters. This is not modelled: a manifest line is taken whole.
- `sscanf` is modelled as five whitespace-separated fields: `0x` plus hex digits twice, two signed decimals, and a name. The values of the two decimal fields are not computed, since nothing uses them. A `%lx` value past 64 bits saturates, and a `%x` value is read the same way and then cut to 32 bits.
- The arena's bytes are not modelled, only its capacity and cursor. `calloc` failures inside `block_create` (dabu.c:32-39) are not modelled; the arena always exists once the header is valid.
- Pointer identity is not modelled. The catalog list is the sequence of its nodes from the head along `next`. The walk to the tail in `list_append` (dabu.c:191-194) and the NULL-list branch (dabu.c:206-207) are not modelled separately, because the sentinel node always exists.
- `py/dabu_py.c`, `cli/main.c` and the Python scripts are bindings and build files, and are not part of this model.
- Decoder.RowName: its contract states only the cursor bounds. The name itself is stated by `Properties.RowEntry` and `Manifest.DllNameFromManifest`.
- Strings.StringNewSpec: its contract states only the cursor bounds. Its outcomes are stated by `Strings.StringNewFits`.
- Strings.StringConcatSpec: its contract states only the cursor bounds. Its outcomes are stated by `Strings.StringConcatNeedsSpareByte`.
- Decoder.Prelude, Decoder.OpenArena and Decoder.HashTables: their own contracts state only what the row loop needs. Their results are stated by `Properties.PreludeFacts`, `Properties.OpenArenaReady`, `Properties.OpenArenaEarly` and `Properties.HashTablesFacts`.

## Behaviour kept as written

The model follows the code in these places, where the code differs from
what a reader might expect:

- `get_hash` and `get_descriptor` reject only `index > size`, so `index == size` is accepted (dabu.c:236, dabu.c:247). The descriptor index is bounded by `count`, which is `index_entry_count`, not by `entry_count` (dabu.c:525). A slot at or past `entry_count` reads the bytes that follow the descriptor table in the arena, namely the hash tables read there verbatim. The model reads the same bytes from the blob at offset `20 + 24*index`.
- `entry_count * (1024 * 1024)` is a 32-bit product and wraps (dabu.c:419). A blob declaring 4096 entries gets an arena of `1040 * 4096` bytes, smaller than one declaring 4095 (`Properties.ArenaWraps`).
- The check after `block_create` tests `block`, not `*block` (dabu.c:421). It can never fire. The model needs no such branch, because the capacity is always at least 1040.
- The fallback name `0x%x.dll` is not zero-padded (dabu.c:534).
- Manifest flattening rewrites only the last '/' (dabu.c:329).
- The catalog entry is appended before the payload is read and decompressed (dabu.c:576). An abort later in the row leaves the entry in the list (`Properties.RowAppends`).
- `list_init` puts a zeroed sentinel node first (dabu.c:178-182), so the catalog returned always starts with an empty name of size 0.
- `string_concat` writes its terminator at `buffer[len]`, one byte past its allocation (dabu.c:127). The model treats this as a fault only when that byte lies past the end of the arena; otherwise it lands on an unused byte of the arena.
- With a manifest present but no matching line, or with no room to copy the name, `dllname` is NULL. A row whose checks then pass copies `MAX_NAME` bytes from NULL in `list_append` when its node fits (dabu.c:201). The model ends the decode there with `Crashed(row, NullName)`. When the node does not fit, the row goes on and `string_concat`/`string_new` refuse the NULL text (`Aborted(row, OutputPath)`).
- `string_new` writes through its buffer even when the buffer allocation failed (dabu.c:101-102). This is `Crashed(row, InString(NullBuffer))`.
- A `Crashed` result stands for undefined behaviour: the source does not return from that point in any defined way. The count, arena, catalog and files such a result carries are what the model had when the fault was reached. They mean nothing about what the source returns.
- `memcpy(new_node->name, name, MAX_NAME)` always reads 1024 bytes (dabu.c:201). Without a manifest, `name` is the 16-byte stack buffer `hexdllname` (dabu.c:533-534), so every appended row reads about 1008 bytes past it. With a manifest, `name` is the arena copy made by `get_dllname_from_manifest`, and the node allocated next starts right after that copy's terminator. So the 1024 bytes read overlap the bytes written whenever the name is shorter than 1023 characters. The C standard leaves both undefined. The model does not flag them, unlike the NULL copy above, and stores the C string the node holds (`Catalog.StoredName`). In both cases the name and its terminator are the first bytes read and lie outside the bytes written, so they reach the node intact under a front-to-back copy. Only the bytes after the terminator, which nothing reads, differ.
- A descriptor with `data_size == 0` reads zero bytes. `fread` then returns 0 without reaching end of file, so the decode stops with `Aborted(row, PayloadRead)` (dabu.c:586-597). A payload cut short by the end of the blob is read as far as it goes, and the rest of the buffer stays zero.
- `write_file`'s `size_t` result is stored in an `int` (dabu.c:625). A payload of 2^31 bytes or more therefore aborts after it has been written.
- When `change_file_ext` returns NULL, the path passed to `fopen` is NULL. The model treats this as the manifest not opening (dabu.c:431-438).
