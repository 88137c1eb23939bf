/** The byte buffer with separate read and write positions (framework/buffer.cpp, framework/buffer.h). */
module Buffers {

  import opened Bytes

  const NULL: nat := 0

  /** A slice of what `realloc` carries over. */
  lemma KeptSlice(before: seq<byte>, block: seq<byte>, kept: nat, lo: nat, hi: nat)
    requires lo <= hi <= kept <= |block| && kept <= |before|
    ensures Spliced(before, 0, block[..kept])[lo..hi] == block[lo..hi]
  {
    var r := Spliced(before, 0, block[..kept]);
    forall k | lo <= k < hi
      ensures r[k] == block[k]
    {
      SplicedAt(before, 0, block[..kept], k);
    }
    hide Spliced;
    SameSlice(r, block, lo, hi);
  }

  /** The buffer's four pointers as addresses, and the memory block they point into. */
  class Buffer {
    var begin: nat
    var end: nat
    var data: nat
    var space: nat
    var block: array<byte>  // the bytes from `begin` to `end`

    ghost predicate Valid()
      reads this
    {
      && begin <= data <= space <= end
      && block.Length == end - begin
      && (begin == NULL ==> end == NULL)
    }

    /** Empty, with all of the block free. */
    ghost predicate Drained()
      reads `begin, `data, `space
    {
      begin == data == space
    }

    /** The live bytes, oldest first. */
    ghost function Contents(): (s: seq<byte>)
      requires Valid()
      reads this, block
      ensures |s| == space - data
    {
      block[data - begin..space - begin]
    }

    constructor ()
      ensures Valid() && begin == 0 && Drained() && Contents() == [] && fresh(block)
    {
      begin, end, data, space := NULL, NULL, NULL, NULL;
      block := new byte[0];
    }

    /** `address` is what `malloc` answers. */
    method Init(size: int, address: nat) returns (code: int)
      requires Valid()
      modifies this
      ensures Valid() && (block == old(block) || fresh(block))
      ensures code == if size < 8 || old(begin) != NULL then -1 else if address == NULL then -2 else 0
      ensures code != 0 ==> unchanged(this)
      ensures code == 0 ==> Contents() == [] && begin == address && end - space == size
    {
      if size < 8 || begin != NULL {
        return -1;
      }
      if address == NULL {
        return -2;
      }
      block := new byte[size];
      begin, end, data, space := address, address + size, address, address;
      return 0;
    }

    method Fini()
      requires Valid()
      modifies this
      ensures Valid() && begin == NULL && Drained() && Contents() == [] && (block == old(block) || fresh(block))
    {
      if begin != NULL {
        block := new byte[0];
        begin, end, data, space := NULL, NULL, NULL, NULL;
      }
    }

    /**
     `address` is what `realloc` answers: null when it fails, the old address when it grows
     the block in place, another one when it moves it.  A size of zero, which makes
     `realloc` free the block, is not used.
     */
    method Resize(size: int, address: nat) returns (code: int)
      requires Valid() && size != 0
      modifies this
      ensures Valid() && (block == old(block) || fresh(block))
      ensures code == if old(space) - old(begin) > size then -1 else if address == NULL then -2 else 0
      ensures code != 0 ==> unchanged(this)
      ensures Contents() == old(Contents()) && (old(Drained()) ==> Drained())
      ensures code == 0 && Drained() ==> space + size == end
      ensures code == 0 ==> end - begin == size && begin == address && end - space == size - old(space - begin)
    {
      if space - begin > size {
        return -1;
      }
      if address == NULL {
        return -2;
      }
      hide Buffer.Contents;
      var larger := Reallocate(size);
      Install(larger, size, address);
      return 0;
    }

    /** A block of the new size with the old bytes, as far as they fit. */
    method Reallocate(size: int) returns (larger: array<byte>)
      requires Valid() && space - begin <= size
      ensures fresh(larger) && larger.Length == size && larger[data - begin..space - begin] == Contents()
    {
      larger := new byte[size];
      var kept := if size < end - begin then size else end - begin;
      ghost var before := larger[..];
      Copy(larger, 0, block[..kept]);
      KeptSlice(before, block[..], kept, data - begin, space - begin);
    }

    /** Point the four pointers into the new block. */
    method Install(larger: array<byte>, size: int, address: nat)
      requires Valid() && space - begin <= size == larger.Length && address != NULL
      requires larger[data - begin..space - begin] == Contents()
      modifies this
      ensures Valid() && block == larger && begin == address && end == address + size
      ensures data == address + old(data - begin) && space == address + old(space - begin)
      ensures Contents() == old(Contents())
    {
      ghost var lo, hi := data - begin, space - begin;
      block := larger;
      if address == begin {
        end := begin + size;
      } else {
        data := address + (data - begin);
        space := address + (space - begin);
        begin := address;
        end := begin + size;
      }
      assert data - begin == lo && space - begin == hi;
    }

    /** Move the live bytes to the front when more than half of the block lies before them. */
    method Adjust()
      requires Valid()
      modifies this`data, this`space, block
      ensures Valid() && Contents() == old(Contents())
      ensures end - space >= old(end - space)
      ensures if begin != NULL && old(data) - begin > (end - begin) / 2 then data == begin
              else data == old(data) && space == old(space) && block[..] == old(block[..])
    {
      if begin != NULL && data - begin > (end - begin) / 2 {
        var count := space - data;
        ghost var before := block[..];
        Copy(block, 0, block[data - begin..space - begin]);
        SplicedWithin(before, 0, before[data - begin..space - begin]);
        hide Spliced;
        data := begin;
        space := begin + count;
      }
    }

    method Capacity() returns (n: int)
      requires Valid()
      ensures n == end - begin
    {
      n := end - begin;
    }

    method DataSize() returns (n: int)
      requires Valid()
      ensures n == |Contents()|
    {
      n := space - data;
    }

    method SpaceSize() returns (n: int)
      requires Valid()
      ensures n == end - space
    {
      n := end - space;
    }

    /** What a caller sees through `data()`. */
    method Peek() returns (bytes: seq<byte>)
      requires Valid()
      ensures bytes == Contents()
    {
      bytes := block[data - begin..space - begin];
    }

    /** What a caller does through `space()`: write bytes that are not live yet. */
    method Fill(bytes: seq<byte>)
      requires Valid() && |bytes| <= end - space
      modifies block
      ensures Valid() && Contents() == old(Contents())
      ensures block[space - begin..space - begin + |bytes|] == bytes
    {
      ghost var before := block[..];
      Copy(block, space - begin, bytes);
      SplicedBefore(before, space - begin, bytes, data - begin, space - begin);
      SplicedWithin(before, space - begin, bytes);
      hide Spliced;
    }

    /** The write position moves over `count` bytes already written. */
    method PushData(count: int) returns (code: int)
      requires Valid()
      modifies this`space
      ensures Valid() && code == if count < 1 || count > end - old(space) then -1 else 0
      ensures code == -1 ==> space == old(space)
      ensures code == 0 ==> space == old(space) + count
                            && Contents() == old(Contents()) + block[old(space) - begin..old(space) - begin + count]
    {
      if count < 1 || count > end - space {
        return -1;
      }
      space := space + count;
      return 0;
    }

    /** The read position moves over `count` bytes; an empty buffer starts over. */
    method PopData(count: int) returns (code: int)
      requires Valid()
      modifies this`data, this`space
      ensures Valid() && code == if count < 1 || count > |old(Contents())| then -1 else 0
      ensures code == -1 ==> data == old(data) && space == old(space)
      ensures code == 0 ==> Contents() == old(Contents())[count..] && end - space >= old(end - space)
      ensures code == 0 && Contents() == [] ==> end - space == end - begin
    {
      if count < 1 || count > space - data {
        return -1;
      }
      data := data + count;
      if data == space {
        data, space := begin, begin;
      }
      return 0;
    }

    method Clear()
      requires Valid()
      modifies this`data, this`space
      ensures Valid() && Contents() == [] && Drained()
    {
      data, space := begin, begin;
    }
  }
}
