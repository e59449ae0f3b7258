/**
 * The entry catalog: the singly linked list of `assembly_T` nodes that
 * `list_init` and `list_append` build in the arena (dabu.c:177-208,
 * dabu.h:9-13). The nodes, from the head along `next`, are a sequence.
 */
module Catalog {
  import opened Wrappers
  import opened Arena

  /** `MAX_NAME`: the size of a node's name array. */
  const MAX_NAME: nat := 1024
  /** `sizeof(assembly_T)`: the name array, a `size_t` and the `next` pointer. */
  const ASSEMBLY_SIZE: nat := 1040

  datatype Entry = Entry(name: string, size: nat)

  /** The node `list_init` allocates: zeroed memory, so an empty name and size 0. */
  const SENTINEL := Entry("", 0)

  /**
   * The name as the `MAX_NAME`-byte `memcpy` leaves it in the node: the C
   * string up to its terminator, cut at `MAX_NAME` characters. The copy
   * reads past a short name (the 16-byte fallback buffer, or the arena copy
   * the node is allocated right after); the bytes after the terminator are
   * not modelled.
   */
  function StoredName(name: string): (r: string)
    ensures |r| <= MAX_NAME && |r| <= |name| && r == name[..|r|]
    ensures |name| <= MAX_NAME ==> r == name
  {
    if |name| <= MAX_NAME then name else name[..MAX_NAME]
  }

  /** The list after `list_append`, the cursor after it, and whether the name was copied from NULL. */
  datatype Linked = Linked(nodes: seq<Entry>, offset: nat, nullName: bool)

  /**
   * `list_append` on values: the nodes afterwards, the cursor afterwards, and
   * whether the name was copied from NULL (a new node but no name to copy).
   */
  function Appended(cap: nat, offset: nat, nodes: seq<Entry>, name: Option<string>, size: nat)
    : (r: Linked)
    requires offset <= cap
    ensures offset <= r.offset <= cap
    ensures r.nullName <==> offset + ASSEMBLY_SIZE <= cap && name.None?
    ensures |nodes| <= |r.nodes| <= |nodes| + 1 && r.nodes[..|nodes|] == nodes
    ensures |r.nodes| == |nodes| + 1 <==> offset + ASSEMBLY_SIZE <= cap && name.Some?
    ensures |r.nodes| == |nodes| + 1 ==> r.nodes[|nodes|] == Entry(StoredName(name.value), size)
  {
    if offset + ASSEMBLY_SIZE > cap then Linked(nodes, offset, false)
    else if name.None? then Linked(nodes, offset + ASSEMBLY_SIZE, true)
    else Linked(nodes + [Entry(StoredName(name.value), size)], offset + ASSEMBLY_SIZE, false)
  }

  class Catalog {
    /** The nodes from the head, following `next`. */
    var nodes: seq<Entry>

    constructor ()
      ensures nodes == []
    {
      nodes := [];
    }

    /** `list_init`: a zeroed node of `size` bytes becomes the whole list; NULL when it does not fit. */
    method Init(block: Block, size: nat)
      requires block.Valid()
      modifies this, block`offset
      ensures block.Valid() && block.cap == old(block.cap)
      ensures var fits := old(block.offset) + size <= block.cap;
        nodes == (if fits then [SENTINEL] else []) &&
        block.offset == (if fits then old(block.offset) + size else old(block.offset))
    {
      var p := block.Alloc(size);
      nodes := if p.Some? then [SENTINEL] else [];
    }

    /**
     * `list_append`: a node `(name, size)` linked after the last one. When the
     * node does not fit the list is unchanged; when it fits but the name is
     * NULL the copy faults before the node is linked.
     */
    method Append(block: Block, name: Option<string>, size: nat) returns (fault: bool)
      requires block.Valid()
      modifies this, block`offset
      ensures block.Valid() && block.cap == old(block.cap)
      ensures Linked(nodes, block.offset, fault) == Appended(block.cap, old(block.offset), old(nodes), name, size)
    {
      var node := block.Alloc(ASSEMBLY_SIZE);
      if node.None? {
        return false;
      }
      if name.None? {
        return true;
      }
      nodes := nodes + [Entry(StoredName(name.value), size)];
      fault := false;
    }
  }
}
