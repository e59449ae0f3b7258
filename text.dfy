/**
 * The pure character computations of the decoder: `strrchr`, the file
 * extension swap (dabu.c:254-276), the parent directory (dabu.c:278-300)
 * and the `0x%x` spelling of the fallback name (dabu.c:533-534).
 * C strings are sequences of characters without their terminator.
 */
module Text {
  import opened Wrappers

  /** `strrchr`: the position of the last `c` in `s`. */
  function LastIndexOf(s: string, c: char): (r: Option<nat>)
    ensures r.None? <==> c !in s
    ensures r.Some? ==> r.value < |s| && s[r.value] == c && c !in s[r.value + 1..]
  {
    if s == [] then None
    else if s[|s| - 1] == c then Some(|s| - 1)
    else
      assert s == s[..|s| - 1] + [s[|s| - 1]];
      LastIndexOf(s[..|s| - 1], c)
  }

  /** Any position holding the last `c` is the one `LastIndexOf` finds. */
  lemma LastIndexOfUnique(s: string, c: char, k: nat)
    requires k < |s| && s[k] == c && c !in s[k + 1..]
    ensures LastIndexOf(s, c) == Some(k)
  {
  }

  /**
   * `change_file_ext` without its allocation: swaps the extension that
   * starts at the last '.' for `ext`, but only when the character after that
   * '.' is 'b' and the '.' is not the first character.
   */
  function ChangeFileExt(path: string, ext: string): Option<string>
  {
    match LastIndexOf(path, '.')
    case None => None
    case Some(dot) =>
      if dot + 1 >= |path| || path[dot + 1] != 'b' then None
      else if dot == 0 then None
      else Some(path[..dot] + ext)
  }

  lemma ChangeFileExtAt(path: string, ext: string, dot: nat)
    requires dot < |path| && path[dot] == '.' && '.' !in path[dot + 1..]
    ensures ChangeFileExt(path, ext)
         == if 0 < dot && dot + 1 < |path| && path[dot + 1] == 'b' then Some(path[..dot] + ext) else None
  {
    LastIndexOfUnique(path, '.', dot);
  }

  /** A blob path `stem.b…` gets its extension replaced whatever dots the stem holds. */
  lemma ChangeFileExtOfBlobPath(stem: string, rest: string, ext: string)
    requires stem != [] && '.' !in rest
    ensures ChangeFileExt(stem + ".b" + rest, ext) == Some(stem + ext)
  {
    var path := stem + ".b" + rest;
    assert path[|stem| + 1..] == "b" + rest;
    ChangeFileExtAt(path, ext, |stem|);
    assert path[..|stem|] == stem;
  }

  /**
   * `get_parent_dir` without its allocation: the prefix up to and including
   * the last '/', or else the last '\\'; None when there is neither.
   */
  function ParentDir(path: string): Option<string>
  {
    var sep := if '/' in path then LastIndexOf(path, '/') else LastIndexOf(path, '\\');
    match sep
    case None => None
    case Some(k) => Some(path[..k + 1])
  }

  lemma ParentDirCases(path: string)
    ensures ParentDir(path).None? <==> '/' !in path && '\\' !in path
    ensures ParentDir(path).Some? ==>
      var dir := ParentDir(path).value;
      0 < |dir| <= |path| && dir == path[..|dir|] &&
      (if '/' in path then dir[|dir| - 1] == '/' && '/' !in path[|dir|..]
       else dir[|dir| - 1] == '\\' && '\\' !in path[|dir|..])
  {
  }

  /** The directory of `dir + name` is `dir` when `dir` ends in '/' and `name` holds none. */
  lemma ParentDirOfJoin(dir: string, name: string)
    requires dir != [] && dir[|dir| - 1] == '/' && '/' !in name
    ensures ParentDir(dir + name) == Some(dir)
  {
    var path := dir + name;
    assert path[|dir|..] == name;
    LastIndexOfUnique(path, '/', |dir| - 1);
    assert path[..|dir|] == dir;
  }

  // ---- Hexadecimal, as printed by `%x` and read by `%x` ----

  function HexChar(d: nat): char
    requires d < 16
  {
    "0123456789abcdef"[d]
  }

  predicate IsHexDigit(c: char)
  {
    '0' <= c <= '9' || 'a' <= c <= 'f' || 'A' <= c <= 'F'
  }

  predicate AllHex(s: string)
  {
    forall k :: 0 <= k < |s| ==> IsHexDigit(s[k])
  }

  function HexValue(c: char): (v: nat)
    requires IsHexDigit(c)
    ensures v < 16
  {
    if '0' <= c <= '9' then c as nat - '0' as nat
    else if 'a' <= c <= 'f' then c as nat - 'a' as nat + 10
    else c as nat - 'A' as nat + 10
  }

  /** `%x` output: lower-case hexadecimal digits of `n`, no leading zeros, no padding. */
  function LowerHex(n: nat): (s: string)
    ensures |s| >= 1
  {
    if n < 16 then [HexChar(n)] else LowerHex(n / 16) + [HexChar(n % 16)]
  }

  /** `%x` input: the value of a run of hexadecimal digits (either case). */
  function ParseHex(s: string): nat
    requires AllHex(s)
  {
    if s == [] then 0 else ParseHex(s[..|s| - 1]) * 16 + HexValue(s[|s| - 1])
  }

  lemma {:induction false} HexRoundTrip(n: nat)
    ensures AllHex(LowerHex(n)) && ParseHex(LowerHex(n)) == n
  {
    if n >= 16 {
      HexRoundTrip(n / 16);
      var s := LowerHex(n);
      assert s[..|s| - 1] == LowerHex(n / 16);
    }
  }

  function Pow16(k: nat): nat
  {
    if k == 0 then 1 else 16 * Pow16(k - 1)
  }

  /** A value below 16^k takes at most k digits. */
  lemma {:induction false} HexLength(n: nat, k: nat)
    requires 1 <= k && n < Pow16(k)
    ensures |LowerHex(n)| <= k
  {
    if n >= 16 {
      HexLength(n / 16, k - 1);
    }
  }

  /** `sprintf("0x%x.dll", hash32)`: the name used when there is no manifest. */
  function FallbackName(hash32: nat): string
  {
    "0x" + LowerHex(hash32) + ".dll"
  }

  /**
   * For every 32-bit hash the fallback name and its terminator fit the
   * 16-character `hexdllname` buffer, and the hash can be read back from it.
   */
  lemma FallbackNameFits(hash32: nat)
    requires hash32 < 0x1_0000_0000
    ensures |FallbackName(hash32)| + 1 <= 16
    ensures var name := FallbackName(hash32);
      name[..2] == "0x" && name[|name| - 4..] == ".dll" &&
      AllHex(name[2..|name| - 4]) && ParseHex(name[2..|name| - 4]) == hash32
  {
    assert Pow16(8) == 0x1_0000_0000;
    HexLength(hash32, 8);
    HexRoundTrip(hash32);
    var name := FallbackName(hash32);
    assert name[2..|name| - 4] == LowerHex(hash32);
  }
}
