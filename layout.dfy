/**
 * The packed little-endian records of an AssemblyStore blob
 * (dabu.c:133-175) and where they sit in the file (dabu.c:453-513).
 * A blob is a byte sequence; every record field is an unsigned 32-bit
 * value except the 8-byte hash of a hash row.
 */
module Layout {

  /** An octet of the blob. */
  newtype Byte = x: int | 0 <= x < 0x100

  type Bytes = seq<Byte>

  const XABA_MAGIC: nat := 0x41424158
  const XALZ_MAGIC: nat := 0x5a4c4158

  const HEADER_SIZE: nat := 20
  const DESCRIPTOR_SIZE: nat := 24
  const HASH_SIZE: nat := 20
  const XALZ_SIZE: nat := 12

  const U32_LIMIT: nat := 0x1_0000_0000
  const U64_LIMIT: nat := 0x1_0000_0000_0000_0000

  /** The unsigned 32-bit value of the four bytes at `off`, least significant first. */
  function U32At(s: Bytes, off: nat): (v: nat)
    requires off + 4 <= |s|
    ensures v < U32_LIMIT
  {
    s[off] as nat + 0x100 * (s[off + 1] as nat) + 0x1_0000 * (s[off + 2] as nat) + 0x100_0000 * (s[off + 3] as nat)
  }

  /** The unsigned 64-bit value of the eight bytes at `off`: the low word first. */
  function U64At(s: Bytes, off: nat): (v: nat)
    requires off + 8 <= |s|
    ensures v < U64_LIMIT
  {
    U32At(s, off) + U32_LIMIT * U32At(s, off + 4)
  }

  /** The four little-endian bytes of `v`, truncated to 32 bits. */
  function U32Bytes(v: nat): (s: Bytes)
    ensures |s| == 4
  {
    var q1 := v / 0x100;
    var q2 := q1 / 0x100;
    var q3 := q2 / 0x100;
    [(v % 0x100) as Byte, (q1 % 0x100) as Byte, (q2 % 0x100) as Byte, (q3 % 0x100) as Byte]
  }

  /** The eight little-endian bytes of `v`, truncated to 64 bits. */
  function U64Bytes(v: nat): (s: Bytes)
    ensures |s| == 8
  {
    U32Bytes(v % U32_LIMIT) + U32Bytes(v / U32_LIMIT)
  }

  lemma DivMod256(a: nat, x: nat)
    requires a < 0x100
    ensures (a + 0x100 * x) % 0x100 == a && (a + 0x100 * x) / 0x100 == x
  {
  }

  lemma DivModU32(a: nat, x: nat)
    requires a < U32_LIMIT
    ensures (a + U32_LIMIT * x) % U32_LIMIT == a && (a + U32_LIMIT * x) / U32_LIMIT == x
  {
  }

  /** Reading back the bytes written for a 32-bit value gives the value. */
  lemma U32RoundTrip(v: nat)
    requires v < U32_LIMIT
    ensures U32At(U32Bytes(v), 0) == v
  {
    var q1 := v / 0x100;
    var q2 := q1 / 0x100;
    var q3 := q2 / 0x100;
    assert v == v % 0x100 + 0x100 * q1;
    assert q1 == q1 % 0x100 + 0x100 * q2;
    assert q2 == q2 % 0x100 + 0x100 * q3;
    assert q3 < 0x100;
  }

  /** Writing back the value read from four bytes gives the bytes. */
  lemma U32BytesOf(s: Bytes, off: nat)
    requires off + 4 <= |s|
    ensures U32Bytes(U32At(s, off)) == s[off..off + 4]
  {
    var b0, b1, b2, b3 := s[off] as nat, s[off + 1] as nat, s[off + 2] as nat, s[off + 3] as nat;
    var v := U32At(s, off);
    DivMod256(b0, b1 + 0x100 * b2 + 0x1_0000 * b3);
    DivMod256(b1, b2 + 0x100 * b3);
    DivMod256(b2, b3);
  }

  /** Reading back the bytes written for a 64-bit value gives the value. */
  lemma U64RoundTrip(v: nat)
    requires v < U64_LIMIT
    ensures U64At(U64Bytes(v), 0) == v
  {
    var lo, hi := v % U32_LIMIT, v / U32_LIMIT;
    var s := U64Bytes(v);
    U32RoundTrip(lo);
    U32RoundTrip(hi);
    assert s[0..4] == U32Bytes(lo) && s[4..8] == U32Bytes(hi);
    U32AtSlice(s, 0);
    U32AtSlice(s, 4);
  }

  lemma U32AtSlice(s: Bytes, off: nat)
    requires off + 4 <= |s|
    ensures U32At(s, off) == U32At(s[off..off + 4], 0)
  {
  }

  /** `header_T`, 20 bytes at offset 0 of the blob. */
  datatype Header = Header(magic: nat, version: nat, entryCount: nat, indexEntryCount: nat, indexSize: nat)
  {
    function Fields(): seq<nat> { [magic, version, entryCount, indexEntryCount, indexSize] }
  }

  /** `descriptor_T`, 24 bytes: where one payload's regions are in the blob. */
  datatype Descriptor = Descriptor(dataOffset: nat, dataSize: nat, debugDataOffset: nat,
                                   debugDataSize: nat, configDataOffset: nat, configDataSize: nat)
  {
    function Fields(): seq<nat> { [dataOffset, dataSize, debugDataOffset, debugDataSize, configDataOffset, configDataSize] }
  }

  /**
   * `hash_T`, 20 bytes: an 8-byte hash (read through the union either as
   * `hash64` or as its low half `hash32`) followed by three u32 fields.
   */
  datatype HashRecord = HashRecord(hash64: nat, mappingIndex: nat, localStoreIndex: nat, storeId: nat)
  {
    /** The `hash32` member of the union: the first four bytes of the same eight. */
    function Hash32(): nat { hash64 % U32_LIMIT }
    function Fields(): seq<nat> { [mappingIndex, localStoreIndex, storeId] }
  }

  /** `xalz_T`, the 12-byte header in front of every compressed payload. */
  datatype Xalz = Xalz(magic: nat, index: nat, size: nat)
  {
    function Fields(): seq<nat> { [magic, index, size] }
  }

  function HeaderAt(s: Bytes, off: nat): Header
    requires off + HEADER_SIZE <= |s|
  {
    Header(U32At(s, off), U32At(s, off + 4), U32At(s, off + 8), U32At(s, off + 12), U32At(s, off + 16))
  }

  function DescriptorAt(s: Bytes, off: nat): Descriptor
    requires off + DESCRIPTOR_SIZE <= |s|
  {
    Descriptor(U32At(s, off), U32At(s, off + 4), U32At(s, off + 8),
               U32At(s, off + 12), U32At(s, off + 16), U32At(s, off + 20))
  }

  function HashAt(s: Bytes, off: nat): HashRecord
    requires off + HASH_SIZE <= |s|
  {
    HashRecord(U64At(s, off), U32At(s, off + 8), U32At(s, off + 12), U32At(s, off + 16))
  }

  function XalzAt(s: Bytes, off: nat): Xalz
    requires off + XALZ_SIZE <= |s|
  {
    Xalz(U32At(s, off), U32At(s, off + 4), U32At(s, off + 8))
  }

  /** The 32-bit view of a hash row is the first four bytes of the row, as the union lays it out. */
  lemma HashUnion(s: Bytes, off: nat)
    requires off + HASH_SIZE <= |s|
    ensures HashAt(s, off).Hash32() == U32At(s, off)
  {
    DivModU32(U32At(s, off), U32At(s, off + 4));
  }

  // ---- Offsets of the tables (dabu.c:453-513) ----

  function DescriptorOffset(i: nat): nat { HEADER_SIZE + DESCRIPTOR_SIZE * i }

  function Hash32Offset(entryCount: nat, i: nat): nat { DescriptorOffset(entryCount) + HASH_SIZE * i }

  function Hash64Offset(entryCount: nat, indexCount: nat, i: nat): nat
  {
    Hash32Offset(entryCount, indexCount) + HASH_SIZE * i
  }

  /** The first byte after the hash64 table. */
  function TablesEnd(entryCount: nat, indexCount: nat): nat { Hash64Offset(entryCount, indexCount, indexCount) }

  // ---- Encoders, the inverse of the readers ----

  predicate AllU32(vs: seq<nat>) { forall k :: 0 <= k < |vs| ==> vs[k] < U32_LIMIT }

  function U32s(vs: seq<nat>): (s: Bytes)
    ensures |s| == 4 * |vs|
  {
    if vs == [] then [] else U32Bytes(vs[0]) + U32s(vs[1..])
  }

  function Join(blocks: seq<Bytes>): Bytes
  {
    if blocks == [] then [] else blocks[0] + Join(blocks[1..])
  }

  function EncodeHeader(h: Header): Bytes { U32s(h.Fields()) }
  function EncodeDescriptor(d: Descriptor): Bytes { U32s(d.Fields()) }
  function EncodeHash(r: HashRecord): Bytes { U64Bytes(r.hash64) + U32s(r.Fields()) }
  function EncodeXalz(x: Xalz): Bytes { U32s(x.Fields()) }
}

module LayoutFacts {
  import opened Layout

  predicate HeaderFits(h: Header) { AllU32(h.Fields()) }
  predicate DescriptorFits(d: Descriptor) { AllU32(d.Fields()) }
  predicate HashFits(r: HashRecord) { r.hash64 < U64_LIMIT && AllU32(r.Fields()) }

  function DescriptorBlocks(ds: seq<Descriptor>): seq<Bytes>
  {
    seq(|ds|, k requires 0 <= k < |ds| => EncodeDescriptor(ds[k]))
  }

  function HashBlocks(rs: seq<HashRecord>): seq<Bytes>
  {
    seq(|rs|, k requires 0 <= k < |rs| => EncodeHash(rs[k]))
  }

  lemma U32AtShift(a: Bytes, b: Bytes, off: nat)
    requires off + 4 <= |b|
    ensures U32At(a + b, |a| + off) == U32At(b, off)
  {
    assert (a + b)[|a| + off..|a| + off + 4] == b[off..off + 4];
  }

  lemma U32AtPrefix(a: Bytes, b: Bytes, off: nat)
    requires off + 4 <= |a|
    ensures U32At(a + b, off) == U32At(a, off)
  {
    assert (a + b)[off..off + 4] == a[off..off + 4];
  }

  lemma {:induction false} U32sAt(vs: seq<nat>, k: nat)
    requires AllU32(vs) && k < |vs|
    ensures U32At(U32s(vs), 4 * k) == vs[k]
  {
    if k == 0 {
      assert U32s(vs)[0..4] == U32Bytes(vs[0]);
      U32RoundTrip(vs[0]);
      U32AtSlice(U32s(vs), 0);
    } else {
      assert AllU32(vs[1..]) by { assert forall j :: 0 <= j < |vs| - 1 ==> vs[1..][j] == vs[j + 1]; }
      U32sAt(vs[1..], k - 1);
      U32AtShift(U32Bytes(vs[0]), U32s(vs[1..]), 4 * (k - 1));
    }
  }

  lemma {:induction false} JoinLength(blocks: seq<Bytes>, w: nat)
    requires forall j :: 0 <= j < |blocks| ==> |blocks[j]| == w
    ensures |Join(blocks)| == w * |blocks|
  {
    if blocks != [] {
      JoinLength(blocks[1..], w);
    }
  }

  lemma {:induction false} JoinSplit(blocks: seq<Bytes>, i: nat)
    requires i < |blocks|
    ensures Join(blocks) == Join(blocks[..i]) + blocks[i] + Join(blocks[i + 1..])
  {
    if i == 0 {
      assert blocks[..0] == [] && blocks[1..] == blocks[i + 1..];
    } else {
      JoinSplit(blocks[1..], i - 1);
      assert blocks[1..][..i - 1] == blocks[1..i] && blocks[1..][i - 1] == blocks[i];
      assert blocks[1..][i..] == blocks[i + 1..];
      assert blocks[..i][0] == blocks[0] && blocks[..i][1..] == blocks[1..i];
      assert Join(blocks[..i]) == blocks[0] + Join(blocks[1..i]);
    }
  }

  lemma DescriptorRoundTrip(d: Descriptor)
    requires DescriptorFits(d)
    ensures |EncodeDescriptor(d)| == DESCRIPTOR_SIZE && DescriptorAt(EncodeDescriptor(d), 0) == d
  {
    var vs := d.Fields();
    U32sAt(vs, 0); U32sAt(vs, 1); U32sAt(vs, 2); U32sAt(vs, 3); U32sAt(vs, 4); U32sAt(vs, 5);
  }

  lemma HeaderRoundTrip(h: Header)
    requires HeaderFits(h)
    ensures |EncodeHeader(h)| == HEADER_SIZE && HeaderAt(EncodeHeader(h), 0) == h
  {
    var vs := h.Fields();
    U32sAt(vs, 0); U32sAt(vs, 1); U32sAt(vs, 2); U32sAt(vs, 3); U32sAt(vs, 4);
  }

  lemma HashRoundTrip(r: HashRecord)
    requires HashFits(r)
    ensures |EncodeHash(r)| == HASH_SIZE && HashAt(EncodeHash(r), 0) == r
  {
    var lo, vs := U64Bytes(r.hash64), r.Fields();
    U64RoundTrip(r.hash64);
    assert EncodeHash(r)[0..8] == lo;
    U32sAt(vs, 0); U32sAt(vs, 1); U32sAt(vs, 2);
    U32AtShift(lo, U32s(vs), 0);
    U32AtShift(lo, U32s(vs), 4);
    U32AtShift(lo, U32s(vs), 8);
  }

  lemma XalzRoundTrip(x: Xalz)
    requires AllU32(x.Fields())
    ensures |EncodeXalz(x)| == XALZ_SIZE && XalzAt(EncodeXalz(x), 0) == x
  {
    var vs := x.Fields();
    U32sAt(vs, 0); U32sAt(vs, 1); U32sAt(vs, 2);
  }

  lemma U32AtWindow(x: Bytes, y: Bytes, z: Bytes, off: nat)
    requires off + 4 <= |y|
    ensures U32At(x + y + z, |x| + off) == U32At(y, off)
  {
    assert (x + y + z)[|x| + off..|x| + off + 4] == y[off..off + 4];
  }

  lemma DescriptorAtWindow(x: Bytes, y: Bytes, z: Bytes)
    requires DESCRIPTOR_SIZE <= |y|
    ensures DescriptorAt(x + y + z, |x|) == DescriptorAt(y, 0)
  {
    U32AtWindow(x, y, z, 0); U32AtWindow(x, y, z, 4); U32AtWindow(x, y, z, 8);
    U32AtWindow(x, y, z, 12); U32AtWindow(x, y, z, 16); U32AtWindow(x, y, z, 20);
  }

  lemma HashAtWindow(x: Bytes, y: Bytes, z: Bytes)
    requires HASH_SIZE <= |y|
    ensures HashAt(x + y + z, |x|) == HashAt(y, 0)
  {
    assert (x + y + z)[|x|..|x| + 8] == y[0..8];
    U32AtWindow(x, y, z, 8); U32AtWindow(x, y, z, 12); U32AtWindow(x, y, z, 16);
  }

  lemma DescriptorTableAt(pre: Bytes, ds: seq<Descriptor>, post: Bytes, i: nat)
    requires i < |ds| && forall k :: 0 <= k < |ds| ==> DescriptorFits(ds[k])
    ensures var s := pre + Join(DescriptorBlocks(ds)) + post;
      |s| == |pre| + DESCRIPTOR_SIZE * |ds| + |post| &&
      DescriptorAt(s, |pre| + DESCRIPTOR_SIZE * i) == ds[i]
  {
    var blocks := DescriptorBlocks(ds);
    DescriptorTableLength(ds);
    assert blocks[..i] == DescriptorBlocks(ds[..i]);
    DescriptorTableLength(ds[..i]);
    JoinSplit(blocks, i);
    var before, after := Join(blocks[..i]), Join(blocks[i + 1..]);
    DescriptorRoundTrip(ds[i]);
    assert pre + Join(blocks) + post == (pre + before) + blocks[i] + (after + post);
    DescriptorAtWindow(pre + before, blocks[i], after + post);
  }

  lemma HashTableAt(pre: Bytes, rs: seq<HashRecord>, post: Bytes, i: nat)
    requires i < |rs| && forall k :: 0 <= k < |rs| ==> HashFits(rs[k])
    ensures var s := pre + Join(HashBlocks(rs)) + post;
      |s| == |pre| + HASH_SIZE * |rs| + |post| &&
      HashAt(s, |pre| + HASH_SIZE * i) == rs[i]
  {
    var blocks := HashBlocks(rs);
    HashTableLength(rs);
    assert blocks[..i] == HashBlocks(rs[..i]);
    HashTableLength(rs[..i]);
    JoinSplit(blocks, i);
    var before, after := Join(blocks[..i]), Join(blocks[i + 1..]);
    HashRoundTrip(rs[i]);
    assert pre + Join(blocks) + post == (pre + before) + blocks[i] + (after + post);
    HashAtWindow(pre + before, blocks[i], after + post);
  }

  /** A blob's index area: the header, then the descriptor table, then the two hash tables. */
  function EncodeIndex(h: Header, ds: seq<Descriptor>, h32: seq<HashRecord>, h64: seq<HashRecord>): Bytes
  {
    EncodeHeader(h) + Join(DescriptorBlocks(ds)) + Join(HashBlocks(h32)) + Join(HashBlocks(h64))
  }

  /**
   * Reading the records back at the offsets the decoder uses yields the
   * header, every descriptor and every row of both hash tables.
   */
  lemma IndexRoundTrip(h: Header, ds: seq<Descriptor>, h32: seq<HashRecord>, h64: seq<HashRecord>)
    requires HeaderFits(h) && |h64| == |h32|
    requires forall k :: 0 <= k < |ds| ==> DescriptorFits(ds[k])
    requires forall k :: 0 <= k < |h32| ==> HashFits(h32[k]) && HashFits(h64[k])
    ensures var s := EncodeIndex(h, ds, h32, h64);
      |s| == TablesEnd(|ds|, |h32|) && HeaderAt(s, 0) == h &&
      (forall i :: 0 <= i < |ds| ==> DescriptorAt(s, DescriptorOffset(i)) == ds[i]) &&
      (forall i :: 0 <= i < |h32| ==> HashAt(s, Hash32Offset(|ds|, i)) == h32[i]) &&
      (forall i :: 0 <= i < |h64| ==> HashAt(s, Hash64Offset(|ds|, |h32|, i)) == h64[i])
  {
    IndexLength(h, ds, h32, h64);
    IndexHeader(h, ds, h32, h64);
    forall i | 0 <= i < |ds| ensures DescriptorAt(EncodeIndex(h, ds, h32, h64), DescriptorOffset(i)) == ds[i] {
      IndexDescriptor(h, ds, h32, h64, i);
    }
    forall i | 0 <= i < |h32| ensures HashAt(EncodeIndex(h, ds, h32, h64), Hash32Offset(|ds|, i)) == h32[i] {
      IndexHash32(h, ds, h32, h64, i);
    }
    forall i | 0 <= i < |h64| ensures HashAt(EncodeIndex(h, ds, h32, h64), Hash64Offset(|ds|, |h32|, i)) == h64[i] {
      IndexHash64(h, ds, h32, h64, i);
    }
  }

  lemma IndexLength(h: Header, ds: seq<Descriptor>, h32: seq<HashRecord>, h64: seq<HashRecord>)
    requires HeaderFits(h) && |h64| == |h32|
    requires forall k :: 0 <= k < |ds| ==> DescriptorFits(ds[k])
    requires forall k :: 0 <= k < |h32| ==> HashFits(h32[k]) && HashFits(h64[k])
    ensures |EncodeIndex(h, ds, h32, h64)| == TablesEnd(|ds|, |h32|)
  {
    HeaderRoundTrip(h);
    DescriptorTableLength(ds);
    HashTableLength(h32);
    HashTableLength(h64);
  }

  lemma IndexHeader(h: Header, ds: seq<Descriptor>, h32: seq<HashRecord>, h64: seq<HashRecord>)
    requires HeaderFits(h)
    ensures HEADER_SIZE <= |EncodeIndex(h, ds, h32, h64)| && HeaderAt(EncodeIndex(h, ds, h32, h64), 0) == h
  {
    var hb, db, t32, t64 := EncodeHeader(h), Join(DescriptorBlocks(ds)), Join(HashBlocks(h32)), Join(HashBlocks(h64));
    HeaderRoundTrip(h);
    assert EncodeIndex(h, ds, h32, h64) == hb + (db + t32 + t64);
    HeaderAtWindowed(hb, db + t32 + t64);
  }

  lemma IndexDescriptor(h: Header, ds: seq<Descriptor>, h32: seq<HashRecord>, h64: seq<HashRecord>, i: nat)
    requires HeaderFits(h) && i < |ds|
    requires forall k :: 0 <= k < |ds| ==> DescriptorFits(ds[k])
    ensures DescriptorOffset(i) + DESCRIPTOR_SIZE <= |EncodeIndex(h, ds, h32, h64)|
    ensures DescriptorAt(EncodeIndex(h, ds, h32, h64), DescriptorOffset(i)) == ds[i]
  {
    var hb, db, t32, t64 := EncodeHeader(h), Join(DescriptorBlocks(ds)), Join(HashBlocks(h32)), Join(HashBlocks(h64));
    HeaderRoundTrip(h);
    assert EncodeIndex(h, ds, h32, h64) == hb + db + (t32 + t64);
    assert |hb| + DESCRIPTOR_SIZE * i == DescriptorOffset(i);
    DescriptorTableAt(hb, ds, t32 + t64, i);
  }

  lemma IndexHash32(h: Header, ds: seq<Descriptor>, h32: seq<HashRecord>, h64: seq<HashRecord>, i: nat)
    requires HeaderFits(h) && i < |h32|
    requires forall k :: 0 <= k < |ds| ==> DescriptorFits(ds[k])
    requires forall k :: 0 <= k < |h32| ==> HashFits(h32[k])
    ensures Hash32Offset(|ds|, i) + HASH_SIZE <= |EncodeIndex(h, ds, h32, h64)|
    ensures HashAt(EncodeIndex(h, ds, h32, h64), Hash32Offset(|ds|, i)) == h32[i]
  {
    var pre, t32, t64 := EncodeHeader(h) + Join(DescriptorBlocks(ds)), Join(HashBlocks(h32)), Join(HashBlocks(h64));
    HeaderRoundTrip(h);
    DescriptorTableLength(ds);
    assert EncodeIndex(h, ds, h32, h64) == pre + t32 + t64;
    assert |pre| + HASH_SIZE * i == Hash32Offset(|ds|, i);
    HashTableAt(pre, h32, t64, i);
  }

  lemma IndexHash64(h: Header, ds: seq<Descriptor>, h32: seq<HashRecord>, h64: seq<HashRecord>, i: nat)
    requires HeaderFits(h) && i < |h64|
    requires forall k :: 0 <= k < |ds| ==> DescriptorFits(ds[k])
    requires forall k :: 0 <= k < |h32| ==> HashFits(h32[k])
    requires forall k :: 0 <= k < |h64| ==> HashFits(h64[k])
    ensures Hash64Offset(|ds|, |h32|, i) + HASH_SIZE <= |EncodeIndex(h, ds, h32, h64)|
    ensures HashAt(EncodeIndex(h, ds, h32, h64), Hash64Offset(|ds|, |h32|, i)) == h64[i]
  {
    var hb, db, t32 := EncodeHeader(h), Join(DescriptorBlocks(ds)), Join(HashBlocks(h32));
    HeaderRoundTrip(h);
    DescriptorTableLength(ds);
    HashTableLength(h32);
    assert |hb + db + t32| + HASH_SIZE * i == Hash64Offset(|ds|, |h32|, i);
    assert EncodeIndex(h, ds, h32, h64) == hb + db + t32 + Join(HashBlocks(h64)) + [];
    HashTableAt(hb + db + t32, h64, [], i);
  }

  lemma HeaderAtWindowed(hb: Bytes, rest: Bytes)
    requires HEADER_SIZE <= |hb|
    ensures HeaderAt(hb + rest, 0) == HeaderAt(hb, 0)
  {
    assert hb + rest == [] + hb + rest;
    U32AtWindow([], hb, rest, 0); U32AtWindow([], hb, rest, 4); U32AtWindow([], hb, rest, 8);
    U32AtWindow([], hb, rest, 12); U32AtWindow([], hb, rest, 16);
  }

  lemma DescriptorTableLength(ds: seq<Descriptor>)
    requires forall k :: 0 <= k < |ds| ==> DescriptorFits(ds[k])
    ensures |Join(DescriptorBlocks(ds))| == DESCRIPTOR_SIZE * |ds|
  {
    var blocks := DescriptorBlocks(ds);
    forall k | 0 <= k < |ds| ensures |blocks[k]| == DESCRIPTOR_SIZE {
      DescriptorRoundTrip(ds[k]);
    }
    JoinLength(blocks, DESCRIPTOR_SIZE);
  }

  lemma HashTableLength(rs: seq<HashRecord>)
    requires forall k :: 0 <= k < |rs| ==> HashFits(rs[k])
    ensures |Join(HashBlocks(rs))| == HASH_SIZE * |rs|
  {
    var blocks := HashBlocks(rs);
    forall k | 0 <= k < |rs| ensures |blocks[k]| == HASH_SIZE {
      HashRoundTrip(rs[k]);
    }
    JoinLength(blocks, HASH_SIZE);
  }
}
