/**
 The string arena of stb_ds: strings are copied to the end of the current block downwards. A string
 too long for a block of the current size gets a block of its own, linked behind the current
 one so that the rest of the current block stays usable.
 */
module Arena {
  import opened ProbeOrder

  type Byte = bv8

  const BLOCKSIZE_MIN := 512
  const BLOCKSIZE_MAX := 0x10_0000
  const LAST_SIZE_CLASS := 22

  /** A returned pointer, and the string (with its terminating zero) that it was returned for. */
  datatype Grant = Grant(block: array<Byte>, start: nat, bytes: seq<Byte>)

  /** The size of the next block: 512, 512, 1024, 1024, and so on. */
  function BlockSize(sizeClass: nat): (size: nat)
    ensures size >= BLOCKSIZE_MIN
  {
    BLOCKSIZE_MIN * Pow2(sizeClass / 2)
  }

  lemma {:induction false} ClassBound(sizeClass: nat)
    requires sizeClass <= LAST_SIZE_CLASS
    ensures BlockSize(sizeClass) < BLOCKSIZE_MAX <==> sizeClass < LAST_SIZE_CLASS
  {
    assert Pow2(5) == 32;
    assert Pow2(10) == 32 * Pow2(5);
    assert Pow2(11) == 2 * Pow2(10);
    HalfMonotone(sizeClass / 2);
  }

  lemma {:induction false} HalfMonotone(h: nat)
    requires h <= 11
    ensures h < 11 ==> 2 * Pow2(h) <= Pow2(11)
    decreases 11 - h
  {
    if h < 10 {
      HalfMonotone(h + 1);
    }
  }

  function Linked(blocks: seq<array<Byte>>, block: array<Byte>): seq<array<Byte>> {
    if blocks == [] then [block] else [blocks[0], block] + blocks[1..]
  }

  class Arena {
    var blocks: seq<array<Byte>>     // the list of blocks, current block first
    var remaining: nat               // unused bytes at the beginning of the current block
    var sizeClass: nat                  // selects the size of the next block
    ghost var grants: seq<Grant>

    ghost predicate Inside(g: Grant)
      reads this
    {
      && g.block in blocks
      && g.start + |g.bytes| <= g.block.Length
      && (g.block == blocks[0] ==> remaining <= g.start)
    }

    /** The region still holds its string. */
    ghost predicate Intact(g: Grant)
      reads g.block
    {
      g.start + |g.bytes| <= g.block.Length && g.block[g.start..g.start + |g.bytes|] == g.bytes
    }

    ghost predicate Apart(g: Grant, h: Grant) {
      g.block != h.block || g.start + |g.bytes| <= h.start || h.start + |h.bytes| <= g.start
    }

    /** Every returned region lies in its block, is disjoint from all others and still holds its string. */
    ghost predicate Valid()
      reads this, blocks, set i | 0 <= i < |grants| :: grants[i].block
    {
      && sizeClass <= LAST_SIZE_CLASS
      && (forall i, j :: 0 <= i < j < |blocks| ==> blocks[i] != blocks[j])
      && (if blocks == [] then remaining == 0 else remaining <= blocks[0].Length)
      && (forall i :: 0 <= i < |grants| ==> Inside(grants[i]))
      && (forall i :: 0 <= i < |grants| ==> Intact(grants[i]))
      && (forall i, j :: 0 <= i < j < |grants| ==> Apart(grants[i], grants[j]))
    }

    constructor ()
      ensures Valid() && grants == [] && blocks == []
    {
      blocks, remaining, sizeClass, grants := [], 0, 0, [];
    }

    /** memmove of a string into a block. */
    static method Fill(block: array<Byte>, start: nat, bytes: seq<Byte>)
      requires start + |bytes| <= block.Length
      modifies block
      ensures block[start..start + |bytes|] == bytes
      ensures forall i :: 0 <= i < block.Length && !(start <= i < start + |bytes|) ==> block[i] == old(block[i])
    {
      forall i | 0 <= i < |bytes| {
        block[start + i] := bytes[i];
      }
    }

    /** A new current block. */
    method NewBlock(size: nat)
      requires Valid()
      modifies this`blocks, this`remaining
      ensures Valid() && blocks != [] && fresh(blocks[0]) && blocks[1..] == old(blocks)
      ensures remaining == size == blocks[0].Length && grants == old(grants)
    {
      var block := new Byte[size](_ => 0);
      blocks := [block] + blocks;
      remaining := size;
    }

    /** A block for one long string, linked behind the current block. */
    method OwnBlock(bytes: seq<Byte>) returns (g: Grant)
      requires Valid()
      modifies this`blocks, this`grants
      ensures Valid() && grants == old(grants) + [g] && g.bytes == bytes && fresh(g.block)
      ensures g.start == 0 && g.block.Length == |bytes|
      ensures blocks == Linked(old(blocks), g.block)
    {
      var block := new Byte[|bytes|](_ => 0);
      Fill(block, 0, bytes);
      g := Grant(block, 0, bytes);
      blocks := Linked(blocks, block);
      grants := grants + [g];
    }

    /** Takes a string's place from the end of the unused part of the current block. */
    method Carve(bytes: seq<Byte>) returns (g: Grant)
      requires Valid() && blocks != [] && |bytes| <= remaining
      modifies this`remaining, this`grants, blocks[0]
      ensures Valid() && grants == old(grants) + [g] && g.bytes == bytes
      ensures g.block == blocks[0] && g.start == remaining == old(remaining) - |bytes|
    {
      remaining := remaining - |bytes|;
      Fill(blocks[0], remaining, bytes);
      g := Grant(blocks[0], remaining, bytes);
      forall i | 0 <= i < |grants| ensures Intact(grants[i]) && Inside(grants[i]) && Apart(grants[i], g) {
        assert old(Inside(grants[i])) && old(Intact(grants[i]));
      }
      grants := grants + [g];
    }

    /** stbds_stralloc: earlier grants are untouched, the block class never exceeds 22. */
    method StrAlloc(str: seq<Byte>) returns (g: Grant)
      requires Valid()
      modifies this, blocks
      ensures Valid() && sizeClass <= LAST_SIZE_CLASS
      ensures grants == old(grants) + [g] && g.bytes == str + [0]
      ensures var n, size := |str| + 1, BlockSize(old(sizeClass));
              if n <= old(remaining) then
                blocks == old(blocks) && g.block == blocks[0] && remaining == old(remaining) - n
              else if n <= size then
                blocks != [] && blocks[1..] == old(blocks) && g.block == blocks[0] && fresh(g.block)
                && g.block.Length == size && remaining == size - n
              else
                blocks == Linked(old(blocks), g.block) && fresh(g.block) && remaining == old(remaining)
      ensures sizeClass == if |str| + 1 > old(remaining) && old(sizeClass) < LAST_SIZE_CLASS then old(sizeClass) + 1 else old(sizeClass)
    {
      var bytes := str + [0];
      if |bytes| > remaining {
        var size := BlockSize(sizeClass);
        ClassBound(sizeClass);
        if size < BLOCKSIZE_MAX {
          sizeClass := sizeClass + 1;
        }
        if |bytes| > size {
          g := OwnBlock(bytes);
          return;
        }
        NewBlock(size);
      }
      g := Carve(bytes);
    }
  }
}
