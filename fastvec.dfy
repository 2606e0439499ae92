/** fast_vec<uint32_t> (SimpleTiling.cpp:89-115): an unchecked list over memory it is handed. */
module FastVecs {
  import opened TilingTypes

  class FastVec {
    /** The storage handed to init; the list never grows it. */
    const data: array<uint32>
    var front: nat

    ghost predicate Valid()
      reads this
    {
      front <= data.Length
    }

    /** The pushed elements, oldest first. */
    ghost function Contents(): seq<uint32>
      requires Valid()
      reads this, data
    {
      data[..front]
    }

    /** A default-constructed fast_vec after init(memory): empty, storing into memory. */
    constructor (memory: array<uint32>)
      ensures Valid() && data == memory && front == 0 && Contents() == []
    {
      data := memory;
      front := 0;
    }

    /**
     * push_back: write at slot front and advance. The source does no bounds
     * check; the caller must leave room, which is this method's precondition.
     */
    method PushBack(elt: uint32)
      requires Valid() && front < data.Length
      modifies this, data
      ensures Valid()
      ensures front == old(front) + 1
      ensures data[..] == old(data[..])[old(front) := elt]
      ensures Contents() == old(Contents()) + [elt]
    {
      data[front] := elt;
      front := front + 1;
    }

    /** clear: forget every element; the storage keeps its values. */
    method Clear()
      requires Valid()
      modifies this
      ensures Valid() && front == 0 && Contents() == []
    {
      front := 0;
    }

    /** size: the number of elements pushed since the last clear. */
    method Size() returns (n: nat)
      requires Valid()
      ensures n == |Contents()|
    {
      n := front;
    }

    /** at: the value in slot i, which is the i-th pushed element when i < size. */
    method At(i: nat) returns (v: uint32)
      requires Valid() && i < data.Length
      ensures v == data[i]
      ensures i < front ==> v == Contents()[i]
    {
      v := data[i];
    }
  }
}
