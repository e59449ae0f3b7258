/**
 * The operations that place strings in the arena: `string_new` and
 * `string_concat` (dabu.c:87-131), and the arena copies made by
 * `change_file_ext`, `get_parent_dir` and `get_dllname_from_manifest`.
 * Each has a method over a `Block` and a function giving the same result
 * and the new cursor, which the decoder's specification uses.
 */
module Strings {
  import opened Wrappers
  import opened Arena
  import opened Text

  /** `sizeof(string_T)`: a pointer and two `size_t`s. */
  const STRING_T_SIZE: nat := 24

  /** `string_T`: the text, and the `cap` (= `size`) bytes its buffer holds with the terminator. */
  datatype StringT = StringT(text: string, cap: nat)

  /** What the source does that has no defined outcome. */
  datatype Fault =
    | NullBuffer            // the buffer allocation failed and is written through anyway
    | TerminatorPastArena   // `buffer[len]` lands one past the arena's last byte

  datatype StrOutcome = Made(str: StringT) | Null | Faulted(fault: Fault)

  /** A copy of a C string in the arena (None for NULL), and the cursor after it. */
  datatype Copy = Copy(text: Option<string>, offset: nat)

  /** What `string_new` or `string_concat` gives, and the cursor after it. */
  datatype Placed = Placed(outcome: StrOutcome, offset: nat)

  /** An allocation of `|s| + 1` bytes holding `s` and its terminator; NULL when it does not fit. */
  function Stored(cap: nat, offset: nat, s: Option<string>): (r: Copy)
    requires offset <= cap
    ensures offset <= r.offset <= cap
    ensures r.text.Some? <==> s.Some? && offset + |s.value| + 1 <= cap
    ensures r.text.Some? ==> r.text == s && r.offset == offset + |s.value| + 1
    ensures r.text.None? ==> r.offset == offset
  {
    match s
    case None => Copy(None, offset)
    case Some(text) => if offset + |text| + 1 <= cap then Copy(s, offset + |text| + 1) else Copy(None, offset)
  }

  method Store(block: Block, s: Option<string>) returns (r: Option<string>)
    requires block.Valid()
    modifies block`offset
    ensures block.Valid() && block.cap == old(block.cap)
    ensures Copy(r, block.offset) == Stored(block.cap, old(block.offset), s)
  {
    if s.None? {
      return None;
    }
    var p := block.Alloc(|s.value| + 1);
    r := if p.Some? then s else None;
  }

  /** `change_file_ext`: the swapped path, copied into the arena. */
  method ChangeFileExtIn(block: Block, path: string, ext: string) returns (r: Option<string>)
    requires block.Valid()
    modifies block`offset
    ensures block.Valid() && block.cap == old(block.cap)
    ensures Copy(r, block.offset) == Stored(block.cap, old(block.offset), ChangeFileExt(path, ext))
  {
    r := Store(block, ChangeFileExt(path, ext));
  }

  /** `get_parent_dir`: the directory prefix, copied into the arena. */
  method ParentDirIn(block: Block, path: string) returns (r: Option<string>)
    requires block.Valid()
    modifies block`offset
    ensures block.Valid() && block.cap == old(block.cap)
    ensures Copy(r, block.offset) == Stored(block.cap, old(block.offset), ParentDir(path))
  {
    r := Store(block, ParentDir(path));
  }

  function StringNewSpec(cap: nat, offset: nat, text: string): (r: Placed)
    requires offset <= cap
    ensures offset <= r.offset <= cap
  {
    if offset + STRING_T_SIZE > cap then Placed(Null, offset)
    else if offset + STRING_T_SIZE + |text| + 1 > cap then Placed(Faulted(NullBuffer), offset + STRING_T_SIZE)
    else Placed(Made(StringT(text, |text| + 1)), offset + STRING_T_SIZE + |text| + 1)
  }

  function StringConcatSpec(cap: nat, offset: nat, text: string, extra: string): (r: Placed)
    requires offset <= cap
    ensures offset <= r.offset <= cap
  {
    var len := |text| + |extra| + 1;
    if offset + STRING_T_SIZE > cap then Placed(Null, offset)
    else if offset + STRING_T_SIZE + len > cap then Placed(Faulted(NullBuffer), offset + STRING_T_SIZE)
    else if offset + STRING_T_SIZE + len == cap then Placed(Faulted(TerminatorPastArena), cap)
    else Placed(Made(StringT(text + extra, len)), offset + STRING_T_SIZE + len)
  }

  /**
   * `string_new`: a `string_T` header, then a buffer of `strlen + 1` bytes
   * that the text is copied into without checking that it was allocated.
   */
  method StringNew(block: Block, text: string) returns (r: StrOutcome)
    requires block.Valid()
    modifies block`offset
    ensures block.Valid() && block.cap == old(block.cap)
    ensures Placed(r, block.offset) == StringNewSpec(block.cap, old(block.offset), text)
  {
    var header := block.Alloc(STRING_T_SIZE);
    if header.None? {
      return Null;
    }
    var buffer := block.Alloc(|text| + 1);
    if buffer.None? {
      return Faulted(NullBuffer);
    }
    r := Made(StringT(text, |text| + 1));
  }

  /**
   * `string_concat`: a `string_T` header, then a buffer of `len` bytes for
   * `text + extra` and its terminator, after which the terminator is written
   * again at `buffer[len]`, one byte past the buffer.
   */
  method StringConcat(block: Block, text: string, extra: string) returns (r: StrOutcome)
    requires block.Valid()
    modifies block`offset
    ensures block.Valid() && block.cap == old(block.cap)
    ensures Placed(r, block.offset) == StringConcatSpec(block.cap, old(block.offset), text, extra)
  {
    var len := |text| + |extra| + 1;
    var header := block.Alloc(STRING_T_SIZE);
    if header.None? {
      return Null;
    }
    var buffer := block.Alloc(len);
    if buffer.None? {
      return Faulted(NullBuffer);
    }
    var terminatorAt := buffer.value + len;
    if terminatorAt >= block.cap {
      return Faulted(TerminatorPastArena);
    }
    r := Made(StringT(text + extra, len));
  }

  /**
   * A concatenation succeeds only with one byte to spare beyond what it
   * reserves: the arena must hold the stray terminator too.
   */
  lemma StringConcatNeedsSpareByte(cap: nat, offset: nat, text: string, extra: string)
    requires offset <= cap
    ensures var p := StringConcatSpec(cap, offset, text, extra);
      p.outcome.Made? <==> offset + STRING_T_SIZE + |text| + |extra| + 1 < cap
    ensures var p := StringConcatSpec(cap, offset, text, extra);
      p.outcome.Made? ==>
        var str := p.outcome.str;
        str.text == text + extra && str.cap == |str.text| + 1 && p.offset == offset + STRING_T_SIZE + str.cap
  {
  }

  /** By contrast `string_new` succeeds whenever its two allocations fit. */
  lemma StringNewFits(cap: nat, offset: nat, text: string)
    requires offset <= cap
    ensures var p := StringNewSpec(cap, offset, text);
      && (p.outcome.Made? <==> offset + STRING_T_SIZE + |text| + 1 <= cap)
      && (p.outcome.Made? ==>
            var str := p.outcome.str;
            str.text == text && str.cap == |text| + 1 && p.offset == offset + STRING_T_SIZE + str.cap)
  {
  }
}
