/** A growable buffer of elements that need no destructor (pointers, integers).

    The pointers of the program are offsets into `data` here.  `Contents()` is
    the sequence a user of the vector sees; what lies beyond `size` is
    uninitialised memory and never part of a contract. */
module Vectors {

  class Vector<T(0)> {
    var data: array<T>
    var cap: nat
    var size: nat
    const maxSize: nat   // the largest value of the vector's size type
    const growSize: nat  // growth step; zero means doubling

    ghost predicate Valid()
      reads this
    {
      size <= cap <= maxSize && data.Length == cap && maxSize > 0
    }

    ghost function Contents(): (s: seq<T>)
      requires Valid()
      reads this, data
      ensures |s| == size
    {
      data[..size]
    }

    constructor (maxSize: nat, growSize: nat)
      requires maxSize > 0
      ensures Valid() && fresh(data) && Contents() == []
      ensures this.maxSize == maxSize && this.growSize == growSize
    {
      this.maxSize, this.growSize := maxSize, growSize;
      data := new T[0];
      cap, size := 0, 0;
    }

    /** Reallocates `more` elements larger; nothing happens for zero. */
    method Grow(more: nat)
      requires Valid() && cap + more <= maxSize
      modifies this
      ensures Valid() && size == old(size) && cap == old(cap) + more
      ensures data == old(data) || fresh(data)
      ensures Contents() == old(Contents())
    {
      if more == 0 { return; }
      cap := cap + more;
      var grown := new T[cap];
      var i := 0;
      while i < size
        invariant 0 <= i <= size <= cap && grown.Length == cap
        invariant size == old(size) && cap == old(cap) + more && data == old(data)
        invariant forall k :: 0 <= k < i ==> grown[k] == data[k]
        modifies grown
      {
        grown[i] := data[i];
        i := i + 1;
      }
      data := grown;
    }

    method Reserve(needed: nat)
      requires Valid() && needed <= maxSize
      modifies this
      ensures Valid() && cap == if old(cap) < needed then needed else old(cap)
      ensures data == old(data) || fresh(data)
      ensures Contents() == old(Contents())
    {
      if cap < needed {
        Grow(needed - cap);
      }
    }

    /** Room for one more element, unless the size type is exhausted. */
    method ReserveOne()
      requires Valid()
      modifies this
      ensures Valid() && cap >= old(cap)
      ensures old(size) < maxSize ==> size < cap
      ensures data == old(data) || fresh(data)
      ensures Contents() == old(Contents())
    {
      if cap == size {
        if size != 0 {
          var remain := maxSize - cap;
          var step := if growSize != 0 then growSize else size;
          Grow(if step < remain then step else remain);
        } else {
          Grow(1);
        }
      }
    }

    method PushBack(x: T)
      requires Valid() && size < maxSize
      modifies this, data
      ensures Valid() && (data == old(data) || fresh(data))
      ensures Contents() == old(Contents()) + [x]
    {
      ReserveOne();
      data[size] := x;
      size := size + 1;
    }

    /** Moves the elements from `offset` on up by `amount`, last one first. */
    method ShiftUp(offset: nat, amount: nat)
      requires Valid() && offset <= size && size + amount <= cap
      modifies data
      ensures forall k :: 0 <= k < offset ==> data[k] == old(data[k])
      ensures forall k :: offset + amount <= k < size + amount ==> data[k] == old(data[k - amount])
    {
      var remain := size - offset;
      while remain != 0
        invariant 0 <= remain <= size - offset
        invariant forall k :: 0 <= k < offset + remain ==> data[k] == old(data[k])
        invariant forall k :: offset + remain + amount <= k < size + amount ==> data[k] == old(data[k - amount])
      {
        remain := remain - 1;
        data[offset + remain + amount] := data[offset + remain];
      }
    }

    /** Reallocates to `newCap`, leaving a gap of `gap` elements at `offset`. */
    method AllocateInsert(offset: nat, gap: nat, newCap: nat)
      requires Valid() && offset <= size && size + gap <= newCap <= maxSize
      modifies this
      ensures cap == newCap == data.Length && fresh(data) && size == old(size)
      ensures data[..offset] == old(Contents())[..offset]
      ensures data[offset + gap..size + gap] == old(Contents())[offset..]
    {
      var grown := new T[newCap];
      var i := 0;
      while i < offset
        invariant 0 <= i <= offset
        invariant forall k :: 0 <= k < i ==> grown[k] == data[k]
        modifies grown
      {
        grown[i] := data[i];
        i := i + 1;
      }
      while i < size
        invariant offset <= i <= size
        invariant forall k :: 0 <= k < offset ==> grown[k] == data[k]
        invariant forall k :: offset + gap <= k < i + gap ==> grown[k] == data[k - gap]
        modifies grown
      {
        grown[i + gap] := data[i];
        i := i + 1;
      }
      SlicesMoved(data[..], grown[..], offset, gap, size);
      assert grown[..][..offset] == grown[..offset];
      assert grown[..][offset + gap..size + gap] == grown[offset + gap..size + gap];
      assert data[..][..size] == Contents();
      data, cap := grown, newCap;
    }

    /** Inserts `x` before `offset`; an offset past the end appends.  Throws,
        leaving the vector alone, when the size type has no value left. */
    method Insert(offset: nat, x: T) returns (thrown: bool, at: nat)
      requires Valid()
      requires offset >= size ==> size < maxSize
      modifies this, data
      ensures Valid() && (data == old(data) || fresh(data))
      ensures thrown <==> offset < old(size) == maxSize
      ensures thrown ==> Contents() == old(Contents())
      ensures !thrown ==> at == if offset < old(size) then offset else old(size)
      ensures !thrown ==> Contents() == old(Contents())[..at] + [x] + old(Contents())[at..]
    {
      thrown, at := false, offset;
      if offset >= size {
        at := size;
        PushBack(x);
        return;
      }
      if cap == size && maxSize == cap {
        thrown := true;
        return;
      }
      OpenGap(offset, 1);
      FillOne(offset, x);
    }

    /** Constructs the new element in the gap at `offset` and counts it in. */
    method FillOne(offset: nat, x: T)
      requires Valid() && offset <= size < cap
      modifies data, this`size
      ensures Valid()
      ensures Contents() == old(data[..offset]) + [x] + old(data[offset + 1..size + 1])
    {
      data[offset] := x;
      size := size + 1;
    }

    /** Constructs copies of `src[first..last]` from `offset` on. */
    method CopyIn(offset: nat, src: array<T>, first: nat, last: nat)
      requires first <= last <= src.Length && src != data
      requires offset + (last - first) <= data.Length
      modifies data
      ensures data[offset..offset + (last - first)] == src[first..last]
      ensures data[..offset] == old(data[..offset])
      ensures data[offset + (last - first)..] == old(data[offset + (last - first)..])
    {
      var i := 0;
      while i < last - first
        invariant 0 <= i <= last - first
        invariant forall k :: offset <= k < offset + i ==> data[k] == src[first + (k - offset)]
        invariant forall k :: 0 <= k < offset || offset + i <= k < data.Length ==> data[k] == old(data[k])
      {
        data[offset + i] := src[first + i];
        i := i + 1;
      }
    }

    /** Constructs the new elements in the gap at `offset` and counts them in. */
    method FillGap(offset: nat, src: array<T>, first: nat, last: nat)
      requires first <= last <= src.Length && src != data
      requires Valid() && offset <= size && size + (last - first) <= cap
      modifies data, this`size
      ensures Valid()
      ensures Contents() == old(data[..offset]) + src[first..last]
                          + old(data[offset + (last - first)..size + (last - first)])
    {
      ghost var tail := data[offset + (last - first)..size + (last - first)];
      CopyIn(offset, src, first, last);
      size := size + (last - first);
      assert data[offset + (last - first)..size] == tail;
      assert data[..size] == data[..offset] + data[offset..offset + (last - first)] + tail;
    }

    /** Makes room for `amount` elements at `offset`, reallocating if it must. */
    method OpenGap(offset: nat, amount: nat)
      requires Valid() && offset <= size && size + amount <= maxSize
      modifies this, data
      ensures Valid() && (data == old(data) || fresh(data))
      ensures size == old(size) && size + amount <= cap
      ensures data[..offset] == old(Contents())[..offset]
      ensures data[offset + amount..size + amount] == old(Contents())[offset..]
    {
      var remain := cap - size;
      if amount > remain {
        if size != 0 {
          AllocateInsert(offset, amount, cap + (amount - remain));
        } else {
          Grow(amount - remain);
        }
      } else if size > offset {
        ghost var was := data[..];
        ShiftUp(offset, amount);
        SlicesMoved(was, data[..], offset, amount, size);
      }
    }

    /** Inserts `src[first..last]` before `offset`. */
    method InsertRange(offset: nat, src: array<T>, first: nat, last: nat) returns (thrown: bool)
      requires Valid() && offset <= size && first <= last <= src.Length && src != data
      modifies this, data
      ensures Valid() && (data == old(data) || fresh(data))
      ensures thrown <==> last - first > 0 && old(size) + (last - first) > maxSize
      ensures thrown ==> Contents() == old(Contents())
      ensures !thrown ==>
        Contents() == old(Contents())[..offset] + src[first..last] + old(Contents())[offset..]
    {
      thrown := false;
      if first == last { return; }
      if last - first > cap - size && maxSize - size < last - first {
        thrown := true;
        return;
      }
      OpenGap(offset, last - first);
      FillGap(offset, src, first, last);
    }

    method Clear()
      requires Valid()
      modifies this`size
      ensures Valid() && Contents() == []
    {
      size := 0;
    }

    /** Replaces the contents by `src[first..last]`. */
    method Assign(src: array<T>, first: nat, last: nat)
      requires Valid() && first <= last <= src.Length && last - first <= maxSize && src != data
      modifies this, data
      ensures Valid() && (data == old(data) || fresh(data))
      ensures Contents() == src[first..last]
    {
      Clear();
      var amount := last - first;
      if amount != 0 {
        Reserve(amount);
        size := amount;
        CopyIn(0, src, first, last);
      }
    }

    /** Moves the elements behind `offset + amount` down to `offset`, first one first. */
    method ShiftDown(offset: nat, amount: nat)
      requires Valid() && offset <= size && size + amount <= cap
      modifies data
      ensures Contents() == old(data[..offset] + data[offset + amount..size + amount])
    {
      var i := offset;
      while i < size
        invariant offset <= i <= size
        invariant forall k :: 0 <= k < offset ==> data[k] == old(data[k])
        invariant forall k :: offset <= k < i ==> data[k] == old(data[k + amount])
        invariant forall k :: i <= k < data.Length ==> data[k] == old(data[k])
      {
        data[i] := data[i + amount];
        i := i + 1;
      }
      SlicesJoined(old(data[..]), data[..], offset, amount, size);
      assert old(data[..])[..offset] == old(data[..offset]);
      assert old(data[..])[offset + amount..size + amount] == old(data[offset + amount..size + amount]);
    }

    /** Removes the elements from `first` up to `last`. */
    method EraseRange(first: nat, last: nat) returns (at: nat)
      requires Valid() && first <= last
      requires first < size ==> last <= size
      modifies this`size, data
      ensures Valid()
      ensures old(size) <= first ==> at == size && Contents() == old(Contents())
      ensures first < old(size) ==>
        at == first && Contents() == old(Contents())[..first] + old(Contents())[last..]
    {
      if first >= size {
        return size;
      }
      size := size - (last - first);
      ShiftDown(first, last - first);
      at := first;
    }

    /** Removes the element at `offset`, if there is one. */
    method Erase(offset: nat) returns (at: nat)
      requires Valid()
      modifies this`size, data
      ensures Valid()
      ensures old(size) <= offset ==> at == size && Contents() == old(Contents())
      ensures offset < old(size) ==>
        at == offset && Contents() == old(Contents())[..offset] + old(Contents())[offset + 1..]
    {
      if offset >= size {
        return size;
      }
      size := size - 1;
      ShiftDown(offset, 1);
      at := offset;
    }
  }

  lemma SlicesJoined<A>(was: seq<A>, now: seq<A>, offset: nat, amount: nat, size: nat)
    requires offset <= size <= size + amount <= |was| == |now|
    requires forall k :: 0 <= k < offset ==> now[k] == was[k]
    requires forall k :: offset <= k < size ==> now[k] == was[k + amount]
    ensures now[..size] == was[..offset] + was[offset + amount..size + amount]
  {
  }

  lemma SlicesMoved<A>(was: seq<A>, now: seq<A>, offset: nat, amount: nat, size: nat)
    requires offset <= size <= |was| && size + amount <= |now|
    requires forall k :: 0 <= k < offset ==> now[k] == was[k]
    requires forall k :: offset + amount <= k < size + amount ==> now[k] == was[k - amount]
    ensures now[..offset] == was[..size][..offset]
    ensures now[offset + amount..size + amount] == was[..size][offset..]
  {
  }
}
