/** The growing array of server/tinyxml2.h. */
module DynArrays {

  const INT_MAX: nat := 0x7FFF_FFFF

  function Max(a: nat, b: nat): (m: nat)
    ensures m >= a && m >= b && (m == a || m == b)
  {
    if a < b then b else a
  }

  class DynArray<T(0)> {
    const initialSize: nat
    var mem: array<T>
    var size: nat

    /** The elements copied by all reallocations so far, and the largest size so far. */
    ghost var copied: nat
    ghost var largest: nat

    /** Reallocation at most doubles, and its whole cost stays below the capacity
        reached: growing is linear overall. */
    ghost predicate Valid()
      reads this
    {
      && size <= largest && size <= mem.Length
      && initialSize <= mem.Length <= Max(initialSize, 2 * largest)
      && copied <= mem.Length
    }

    ghost function Contents(): (s: seq<T>)
      reads this, mem
      requires Valid()
      ensures |s| == size
    {
      mem[..size]
    }

    constructor (initialSize: nat)
      ensures Valid() && Contents() == [] && fresh(mem) && this.initialSize == initialSize && copied == 0
    {
      this.initialSize := initialSize;
      mem := new T[initialSize];
      size, copied, largest := 0, 0, 0;
    }

    /** The next request is for `cap` elements, at most half of INT_MAX if the
        array has to grow. */
    method EnsureCapacity(cap: nat)
      requires Valid() && size <= cap && (cap > mem.Length ==> cap <= INT_MAX / 2)
      modifies this
      ensures size == old(size) && cap <= mem.Length && mem[..size] == old(mem[..size])
      ensures mem == old(mem) || fresh(mem)
      ensures cap <= old(mem.Length) ==> mem == old(mem) && copied == old(copied)
      ensures largest == Max(old(largest), cap) && Valid()
    {
      if cap > mem.Length {
        var newMem := new T[cap * 2];
        forall k | 0 <= k < size {
          newMem[k] := mem[k];
        }
        copied := copied + size;
        mem := newMem;
      }
      largest := Max(largest, cap);
    }

    method Push(t: T)
      requires Valid() && (size == mem.Length ==> size < INT_MAX / 2)
      modifies this, mem
      ensures Valid() && Contents() == old(Contents()) + [t]
      ensures mem == old(mem) || fresh(mem)
    {
      EnsureCapacity(size + 1);
      mem[size] := t;
      size := size + 1;
      assert mem[..size] == old(mem[..size]) + [t];
    }

    /** Makes room for `count` elements and returns where they start; what they
        hold is up to the caller. */
    method PushArr(count: nat) returns (at: nat)
      requires Valid() && (size + count > mem.Length ==> size + count <= INT_MAX / 2)
      modifies this
      ensures Valid() && at == old(size) && size == at + count
      ensures mem[..at] == old(mem[..size])
      ensures mem == old(mem) || fresh(mem)
    {
      EnsureCapacity(size + count);
      at := size;
      size := size + count;
    }

    method Pop() returns (t: T)
      requires Valid() && size > 0
      modifies `size
      ensures Valid() && old(Contents()) == Contents() + [t] && mem[..] == old(mem[..])
    {
      size := size - 1;
      t := mem[size];
    }

    method PopArr(count: nat)
      requires Valid() && count <= size
      modifies `size
      ensures Valid() && Contents() == old(Contents())[..|old(Contents())| - count]
    {
      size := size - count;
    }

    method Clear()
      requires Valid()
      modifies `size
      ensures Valid() && Contents() == []
    {
      size := 0;
    }

    /** Removes element `i` by moving the last one into its place. */
    method SwapRemove(i: nat)
      requires Valid() && i < size
      modifies `size, mem
      ensures Valid() && size == old(size) - 1
      ensures Contents() == old(Contents())[i := old(Contents())[old(size) - 1]][..size]
      ensures multiset(Contents()) == multiset(old(Contents())) - multiset{old(Contents())[i]}
    {
      ghost var before := Contents();
      mem[i] := mem[size - 1];
      size := size - 1;
      assert Contents() == before[i := before[|before| - 1]][..size];
      RemovedOne(before, i);
    }
  }

  lemma RemovedOne<T>(s: seq<T>, i: nat)
    requires i < |s|
    ensures multiset(s[i := s[|s| - 1]][..|s| - 1]) == multiset(s) - multiset{s[i]}
  {
    var n := |s| - 1;
    var t := s[i := s[n]];
    assert t == t[..n] + [s[n]];
    assert multiset(t) == multiset(t[..n]) + multiset{s[n]};
    assert multiset(t) == multiset(s) - multiset{s[i]} + multiset{s[n]};
    assert multiset(t[..n]) == multiset(t) - multiset{s[n]};
    assert s[i] in multiset(s);
    assert multiset(t[..n]) == multiset(s) - multiset{s[i]};
  }
}
