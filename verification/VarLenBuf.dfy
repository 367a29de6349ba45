/**
 HVLBuf: a byte buffer that grows at both ends. The bytes in use are a slice of the
 underlying block; pushes move the slice or enlarge the block when there is no room.
 */
module VarLenBuf {

  type Byte = bv8

  datatype Option<T> = None | Some(value: T)

  lemma {:induction false} SplitAt(bytes: seq<Byte>, i: nat, j: nat, k: nat)
    requires i <= j <= k <= |bytes|
    ensures bytes[i..k] == bytes[i..j] + bytes[j..k]
  {
  }

  class VarLenBuf {
    var base: array<Byte>
    var offset: nat
    var size: nat

    ghost predicate Valid()
      reads this
    {
      offset + size <= base.Length
    }

    /** The bytes in use, front first. */
    ghost function Contents(): seq<Byte>
      requires Valid()
      reads this, base
    {
      base[offset..offset + size]
    }

    constructor (capacity: nat)
      ensures Valid() && fresh(base) && Contents() == []
    {
      base := new Byte[capacity](_ => 0);
      offset, size := 0, 0;
    }

    /** A larger block with the same bytes at the same places. */
    method Resize(capacity: nat)
      requires Valid() && capacity >= base.Length
      modifies this
      ensures Valid() && fresh(base) && base.Length == capacity
      ensures offset == old(offset) && size == old(size) && Contents() == old(Contents())
    {
      var block := base;
      var bigger := new Byte[capacity](_ => 0);
      forall i | 0 <= i < block.Length {
        bigger[i] := block[i];
      }
      base := bigger;
    }

    /** memmove of the bytes in use to another place of the block. */
    method MoveTo(at: nat)
      requires Valid() && at + size <= base.Length
      modifies this`offset, base
      ensures Valid() && offset == at && Contents() == old(Contents())
    {
      var from := offset;
      forall i | 0 <= i < size {
        base[at + i] := base[from + i];
      }
      offset := at;
    }

    /** memcpy into the block. */
    method Copy(at: nat, bytes: seq<Byte>)
      requires at + |bytes| <= base.Length
      modifies base
      ensures base[at..at + |bytes|] == bytes
      ensures forall i :: 0 <= i < base.Length && !(at <= i < at + |bytes|) ==> base[i] == old(base[i])
    {
      forall i | 0 <= i < |bytes| {
        base[at + i] := bytes[i];
      }
    }

    /** Writes in front of the bytes in use, where there is room. */
    method WriteFront(bytes: seq<Byte>)
      requires Valid() && offset >= |bytes|
      modifies this`offset, this`size, base
      ensures Valid() && Contents() == bytes + old(Contents())
    {
      var at := offset - |bytes|;
      Copy(at, bytes);
      assert base[offset..offset + size] == old(Contents());
      SplitAt(base[..], at, offset, offset + size);
      offset := at;
      size := size + |bytes|;
    }

    method WriteBack(bytes: seq<Byte>)
      requires Valid() && offset + size + |bytes| <= base.Length
      modifies this`size, base
      ensures Valid() && Contents() == old(Contents()) + bytes
    {
      Copy(offset + size, bytes);
      assert base[offset..offset + size] == old(Contents());
      SplitAt(base[..], offset, offset + size, offset + size + |bytes|);
      size := size + |bytes|;
    }

    method MakeRoomFront(n: nat)
      requires Valid()
      modifies this, base
      ensures Valid() && (base == old(base) || fresh(base))
      ensures offset >= n && Contents() == old(Contents())
    {
      if n > base.Length - size {
        Resize((if base.Length > n then base.Length else n) * 2);
      }
      if offset < n {
        MoveTo(base.Length - size);
      }
    }

    method MakeRoomBack(n: nat)
      requires Valid()
      modifies this, base
      ensures Valid() && (base == old(base) || fresh(base))
      ensures offset + size + n <= base.Length && Contents() == old(Contents())
    {
      if n > base.Length - size {
        Resize((if base.Length > n then base.Length else n) * 2);
      } else if n > base.Length - offset - size {
        MoveTo(0);
      }
    }

    method PushFront(bytes: seq<Byte>)
      requires Valid()
      modifies this, base
      ensures Valid() && (base == old(base) || fresh(base))
      ensures Contents() == bytes + old(Contents())
    {
      MakeRoomFront(|bytes|);
      WriteFront(bytes);
    }

    method PushBack(bytes: seq<Byte>)
      requires Valid()
      modifies this, base
      ensures Valid() && (base == old(base) || fresh(base))
      ensures Contents() == old(Contents()) + bytes
    {
      MakeRoomBack(|bytes|);
      WriteBack(bytes);
    }

    /** Nothing happens if there are fewer bytes than asked for. */
    method PopFront(n: nat) returns (r: Option<seq<Byte>>)
      requires Valid()
      modifies this`offset, this`size
      ensures Valid()
      ensures r.Some? <==> n <= |old(Contents())|
      ensures r.Some? ==> old(Contents()) == r.value + Contents() && |r.value| == n
      ensures r.None? ==> Contents() == old(Contents())
    {
      r := None;
      if n <= size {
        r := Some(base[offset..offset + n]);
        offset := offset + n;
        if offset >= base.Length {
          offset := 0;
        }
        size := size - n;
      }
    }

    method PopBack(n: nat) returns (r: Option<seq<Byte>>)
      requires Valid()
      modifies this`size
      ensures Valid()
      ensures r.Some? <==> n <= |old(Contents())|
      ensures r.Some? ==> old(Contents()) == Contents() + r.value && |r.value| == n
      ensures r.None? ==> Contents() == old(Contents())
    {
      r := None;
      if n <= size {
        r := Some(base[offset + size - n..offset + size]);
        size := size - n;
      }
    }
  }
}
