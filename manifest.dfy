/**
 * `get_dllname_from_manifest` (dabu.c:302-346): a first-match scan of the
 * companion manifest for a line whose 32-bit or 64-bit hash equals the
 * queried hash, giving that line's name with ".dll" appended and its last
 * '/' turned into '_'. Lines are given without their line break.
 */
module Manifest {
  import opened Wrappers
  import opened Text
  import opened Arena
  import opened Strings
  import opened Layout

  /** `sizeof(filename)`: the buffer the name and ".dll" are assembled in. */
  const FILENAME_BUFFER: nat := 4096

  /** `isspace` in the C locale. */
  predicate IsSpace(c: char)
  {
    c == ' ' || c == '\t' || c == '\n' || c == '\r' || c as int == 11 || c as int == 12
  }

  predicate NoSpace(w: string)
  {
    forall k :: 0 <= k < |w| ==> !IsSpace(w[k])
  }

  /** The length of the run of non-space characters that starts `s`. */
  function WordLength(s: string): (n: nat)
    ensures n <= |s| && NoSpace(s[..n])
    ensures n < |s| ==> IsSpace(s[n])
  {
    if s == [] || IsSpace(s[0]) then 0
    else
      var n := WordLength(s[1..]);
      assert s[..n + 1] == [s[0]] + s[1..][..n];
      n + 1
  }

  /** The whitespace-separated fields of `s`, as `%s` and `%x` read them one after another. */
  function Words(s: string): seq<string>
    decreases |s|
  {
    if s == [] then []
    else if IsSpace(s[0]) then Words(s[1..])
    else
      var n := WordLength(s);
      [s[..n]] + Words(s[n..])
  }

  /** One parsed manifest line: `0x<hash32> 0x<hash64> <index> <index2> <name>`. */
  datatype ManifestLine = ManifestLine(hash32: nat, hash64: nat, name: string)

  predicate IsHexField(w: string)
  {
    |w| >= 3 && w[..2] == "0x" && AllHex(w[2..])
  }

  predicate IsDigits(w: string)
  {
    |w| > 0 && forall k :: 0 <= k < |w| ==> '0' <= w[k] <= '9'
  }

  /** What `%d` accepts: an optional sign, then digits. */
  predicate IsDecimal(w: string)
  {
    if |w| > 0 && (w[0] == '+' || w[0] == '-') then IsDigits(w[1..]) else IsDigits(w)
  }

  /** `strtoul`: a value that does not fit 64 bits reads as the largest one. */
  function Saturate64(v: nat): (r: nat)
    ensures r < U64_LIMIT
  {
    if v < U64_LIMIT then v else U64_LIMIT - 1
  }

  /**
   * The `sscanf` of one line: None unless all five conversions succeed.
   * The format starts with a literal "0x", so a line that starts with
   * white space does not parse.
   */
  function ParseLine(line: string): Option<ManifestLine>
  {
    if line == [] || IsSpace(line[0]) then None
    else
      var w := Words(line);
      if |w| < 5 || !IsHexField(w[0]) || !IsHexField(w[1]) || !IsDecimal(w[2]) || !IsDecimal(w[3]) then None
      else Some(ManifestLine(Saturate64(ParseHex(w[0][2..])) % U32_LIMIT, Saturate64(ParseHex(w[1][2..])), w[4]))
  }

  /** `strrchr(filename, '/')` then `underscore[0] = '_'`: only the last '/' changes. */
  function Flatten(name: string): string
  {
    match LastIndexOf(name, '/')
    case None => name
    case Some(k) => name[k := '_']
  }

  /** The name a line yields for `hash`, if it matches and the name fits the buffer. */
  function MatchLine(line: string, hash: nat): Option<string>
  {
    match ParseLine(line)
    case None => None
    case Some(rec) =>
      if (rec.hash32 == hash % U32_LIMIT || rec.hash64 == hash) && |rec.name| + 5 <= FILENAME_BUFFER
      then Some(Flatten(rec.name + ".dll"))
      else None
  }

  /** The name given by the first line that matches `hash`. */
  function Lookup(lines: seq<string>, hash: nat): Option<string>
  {
    if lines == [] then None
    else if MatchLine(lines[0], hash).Some? then MatchLine(lines[0], hash)
    else Lookup(lines[1..], hash)
  }

  /**
   * The scan: reads the manifest from its first line, and on the first
   * match copies the name into the arena; NULL when no line matches or the
   * copy does not fit.
   */
  method DllNameFromManifest(block: Block, lines: seq<string>, hash: nat) returns (r: Option<string>)
    requires block.Valid()
    modifies block`offset
    ensures block.Valid() && block.cap == old(block.cap)
    ensures Copy(r, block.offset) == Stored(block.cap, old(block.offset), Lookup(lines, hash))
  {
    var i := 0;
    while i < |lines|
      invariant 0 <= i <= |lines|
      invariant Lookup(lines, hash) == Lookup(lines[i..], hash)
      invariant block.offset == old(block.offset)
    {
      assert lines[i..][0] == lines[i] && lines[i..][1..] == lines[i + 1..];
      var parsed := ParseLine(lines[i]);
      if parsed.Some? {
        var rec := parsed.value;
        if rec.hash32 == hash % U32_LIMIT || rec.hash64 == hash {
          if |rec.name| + 5 <= FILENAME_BUFFER {
            var filename := Flatten(rec.name + ".dll");
            r := Store(block, Some(filename));
            return;
          }
        }
      }
      i := i + 1;
    }
    r := None;
  }

  // ---- The scan returns the first match ----

  lemma {:induction false} LookupFirstMatch(lines: seq<string>, hash: nat, k: nat)
    requires k < |lines| && MatchLine(lines[k], hash).Some?
    requires forall j :: 0 <= j < k ==> MatchLine(lines[j], hash).None?
    ensures Lookup(lines, hash) == MatchLine(lines[k], hash)
  {
    if k > 0 {
      var m0 := MatchLine(lines[0], hash);
      assert m0.None?;
      assert Lookup(lines, hash) == Lookup(lines[1..], hash);
      assert lines[1..][k - 1] == lines[k];
      LookupFirstMatch(lines[1..], hash, k - 1);
    }
  }

  lemma {:induction false} LookupNone(lines: seq<string>, hash: nat)
    ensures Lookup(lines, hash).None? <==> forall j :: 0 <= j < |lines| ==> MatchLine(lines[j], hash).None?
  {
    if lines != [] {
      LookupNone(lines[1..], hash);
      assert forall j :: 1 <= j < |lines| ==> lines[j] == lines[1..][j - 1];
    }
  }

  /** Whatever line supplies it, a resolved name is its manifest name plus ".dll", one '/' flattened. */
  lemma {:induction false} LookupFromSomeLine(lines: seq<string>, hash: nat)
    requires Lookup(lines, hash).Some?
    ensures exists k :: 0 <= k < |lines| && Lookup(lines, hash) == MatchLine(lines[k], hash)
  {
    if MatchLine(lines[0], hash).None? {
      LookupFromSomeLine(lines[1..], hash);
      var k :| 0 <= k < |lines| - 1 && Lookup(lines[1..], hash) == MatchLine(lines[1..][k], hash);
      assert lines[1..][k] == lines[k + 1];
    }
  }

  // ---- Flattening ----

  lemma FlattenAt(name: string, k: nat)
    requires k < |name| && name[k] == '/' && '/' !in name[k + 1..]
    ensures Flatten(name) == name[k := '_']
  {
    LastIndexOfUnique(name, '/', k);
  }

  lemma FlattenNoSlash(name: string)
    requires '/' !in name
    ensures Flatten(name) == name
  {
  }

  /** Only one directory level is flattened: earlier '/' characters stay. */
  lemma FlattenOneLevel()
    ensures Flatten("lib/arm64/Foo.dll") == "lib/arm64_Foo.dll"
  {
    FlattenAt("lib/arm64/Foo.dll", 9);
  }

  /** A matched name ends in ".dll", fits the filename buffer, and differs from name + ".dll" only at its last '/'. */
  lemma MatchedName(line: string, hash: nat)
    requires MatchLine(line, hash).Some?
    ensures var rec := ParseLine(line).value;
      var full, n := rec.name + ".dll", MatchLine(line, hash).value;
      |n| == |full| && |n| + 1 <= FILENAME_BUFFER && n[|n| - 4..] == ".dll" &&
      forall j :: 0 <= j < |n| ==> (n[j] == full[j] || (full[j] == '/' && n[j] == '_' && '/' !in full[j + 1..]))
  {
    var rec := ParseLine(line).value;
    var full := rec.name + ".dll";
    match LastIndexOf(full, '/')
    case None =>
    case Some(k) =>
      assert full[|full| - 4..] == ".dll";
      assert k < |full| - 4;
  }

  // ---- Formatting, the inverse of parsing ----

  function JoinWords(ws: seq<string>): string
  {
    if ws == [] then ""
    else if |ws| == 1 then ws[0]
    else ws[0] + "  " + JoinWords(ws[1..])
  }

  /** One manifest line as the tool that writes manifests lays it out. */
  function FormatLine(rec: ManifestLine, index: string, index2: string): string
  {
    JoinWords(["0x" + LowerHex(rec.hash32), "0x" + LowerHex(rec.hash64), index, index2, rec.name])
  }

  predicate IsWord(w: string)
  {
    w != [] && NoSpace(w)
  }

  lemma {:induction false} WordLengthOfWord(w: string, rest: string)
    requires NoSpace(w)
    requires rest == [] || IsSpace(rest[0])
    ensures WordLength(w + rest) == |w|
  {
    if w == [] {
      assert w + rest == rest;
    } else {
      assert (w + rest)[1..] == w[1..] + rest;
      WordLengthOfWord(w[1..], rest);
    }
  }

  lemma {:induction false} WordsSkipSpaces(sp: string, rest: string)
    requires forall k :: 0 <= k < |sp| ==> IsSpace(sp[k])
    ensures Words(sp + rest) == Words(rest)
  {
    if sp == [] {
      assert sp + rest == rest;
    } else {
      assert (sp + rest)[1..] == sp[1..] + rest;
      WordsSkipSpaces(sp[1..], rest);
    }
  }

  lemma {:induction false} WordsOfJoin(ws: seq<string>)
    requires forall k :: 0 <= k < |ws| ==> IsWord(ws[k])
    ensures Words(JoinWords(ws)) == ws
  {
    if |ws| == 1 {
      WordLengthOfWord(ws[0], "");
      assert ws[0] + "" == ws[0];
      assert ws[0][|ws[0]|..] == "";
      assert ws[0][..|ws[0]|] == ws[0];
    } else if |ws| > 1 {
      var w, tail := ws[0], JoinWords(ws[1..]);
      var s := w + ("  " + tail);
      assert JoinWords(ws) == s;
      WordLengthOfWord(w, "  " + tail);
      assert s[..|w|] == w && s[|w|..] == "  " + tail;
      WordsSkipSpaces("  ", tail);
      WordsOfJoin(ws[1..]);
    }
  }

  lemma HexFieldOf(n: nat)
    ensures IsHexField("0x" + LowerHex(n)) && ParseHex(("0x" + LowerHex(n))[2..]) == n
    ensures IsWord("0x" + LowerHex(n))
  {
    HexRoundTrip(n);
    var w := "0x" + LowerHex(n);
    assert w[2..] == LowerHex(n) && w[..2] == "0x";
    assert forall k :: 2 <= k < |w| ==> IsHexDigit(w[k]) by {
      forall k | 2 <= k < |w| ensures IsHexDigit(w[k]) { assert w[k] == w[2..][k - 2]; }
    }
  }

  /**
   * Reading back a formatted line gives the record: both hashes and the
   * name, whatever the two index fields hold.
   */
  lemma ParseFormatRoundTrip(rec: ManifestLine, index: string, index2: string)
    requires rec.hash32 < U32_LIMIT && rec.hash64 < U64_LIMIT
    requires IsWord(rec.name) && IsDecimal(index) && IsDecimal(index2)
    ensures ParseLine(FormatLine(rec, index, index2)) == Some(rec)
  {
    HexFieldOf(rec.hash32);
    HexFieldOf(rec.hash64);
    FormatWords(rec, index, index2);
    var w := Words(FormatLine(rec, index, index2));
    assert Saturate64(ParseHex(w[0][2..])) % U32_LIMIT == rec.hash32;
    assert Saturate64(ParseHex(w[1][2..])) == rec.hash64;
  }

  /** A formatted line starts with the "0x" of its first field and splits back into its five fields. */
  lemma FormatWords(rec: ManifestLine, index: string, index2: string)
    requires IsWord(rec.name) && IsDecimal(index) && IsDecimal(index2)
    ensures var line := FormatLine(rec, index, index2);
      line != [] && line[0] == '0' &&
      Words(line) == ["0x" + LowerHex(rec.hash32), "0x" + LowerHex(rec.hash64), index, index2, rec.name]
  {
    var ws := ["0x" + LowerHex(rec.hash32), "0x" + LowerHex(rec.hash64), index, index2, rec.name];
    HexFieldOf(rec.hash32);
    HexFieldOf(rec.hash64);
    DecimalIsWord(index);
    DecimalIsWord(index2);
    WordsOfJoin(ws);
    var line := FormatLine(rec, index, index2);
    assert line == ws[0] + ("  " + JoinWords(ws[1..]));
  }

  lemma DecimalIsWord(w: string)
    requires IsDecimal(w)
    ensures IsWord(w)
  {
    if w[0] == '+' || w[0] == '-' {
      assert forall k :: 1 <= k < |w| ==> w[k] == w[1..][k - 1];
    }
  }
}
