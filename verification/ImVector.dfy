/** The growable array: a block of memory of which the first `size` elements are in use. */
module ImVector {

  class Vector<T(0, ==)> {
    var size: nat
    var capacity: nat
    var data: array?<T>
    /** How many elements reallocations have copied. */
    ghost var copied: nat

    ghost predicate Valid()
      reads this
    {
      size <= capacity && if data == null then capacity == 0 else data.Length == capacity
    }

    ghost function Contents(): seq<T>
      requires Valid()
      reads this, data
    {
      if data == null then [] else data[..size]
    }

    ghost function Costs(): State
      reads `size, `capacity, `copied
    {
      State(size, capacity, copied)
    }

    constructor ()
      ensures Valid() && Contents() == [] && Costs() == State(0, 0, 0)
    {
      size, capacity, data, copied := 0, 0, null, 0;
    }

    function GrowCapacity(sz: nat): nat
      reads `capacity
    {
      Grown(capacity, sz)
    }

    method Reserve(newCapacity: int)
      requires Valid()
      modifies this
      ensures Valid() && Contents() == old(Contents()) && size == old(size)
      ensures if newCapacity <= old(capacity) then data == old(data) && Costs() == old(Costs())
              else fresh(data) && Costs() == Reserved(old(Costs()), newCapacity)
      ensures capacity == if newCapacity <= old(capacity) then old(capacity) else newCapacity
      ensures copied == if newCapacity <= old(capacity) then old(copied) else old(copied) + old(|Contents()|)
    {
      if newCapacity <= capacity {
        return;
      }
      var newData := new T[newCapacity];
      if data != null {
        forall i | 0 <= i < size {
          newData[i] := data[i];
        }
        copied := copied + size;
      }
      data := newData;
      capacity := newCapacity;
    }

    /** Longer vectors end in elements that are not set. */
    method Resize(newSize: nat)
      requires Valid()
      modifies this
      ensures Valid() && size == newSize && (data == old(data) || fresh(data))
      ensures var kept := if newSize < old(size) then newSize else old(size);
              Contents()[..kept] == old(Contents())[..kept]
      ensures if newSize <= old(capacity) then capacity == old(capacity) && data == old(data)
              else GrowsTo(old(capacity), newSize, capacity) && fresh(data)
    {
      if newSize > capacity {
        Reserve(GrowCapacity(newSize));
      }
      size := newSize;
    }

    method PushBack(v: T)
      requires Valid()
      modifies this, data
      ensures Valid() && (data == old(data) || fresh(data)) && Costs() == Added(old(Costs()))
      ensures Grows(old(size), old(capacity), old(copied), capacity, copied)
      ensures Contents() == old(Contents()) + [v]
    {
      if size == capacity {
        Reserve(GrowCapacity(size + 1));
      }
      data[size] := v;
      size := size + 1;
    }

    method PopBack()
      requires Valid() && size > 0
      modifies this
      ensures Valid() && data == old(data) && Costs() == Removed(old(Costs()), 1)
      ensures capacity == old(capacity) && copied == old(copied)
      ensures Contents() == old(Contents())[..old(size) - 1]
    {
      size := size - 1;
    }

    /** Insert v before element `off`. */
    method Insert(off: nat, v: T)
      requires Valid() && off <= size
      modifies this, data
      ensures Valid() && (data == old(data) || fresh(data)) && Costs() == Added(old(Costs()))
      ensures Grows(old(size), old(capacity), old(copied), capacity, copied)
      ensures Contents() == old(Contents())[..off] + [v] + old(Contents())[off..]
    {
      if size == capacity {
        Reserve(GrowCapacity(size + 1));
      }
      ShiftIn(off, v);
    }

    /** Shift the elements from `off` on by one, and put v in front of them. */
    method ShiftIn(off: nat, v: T)
      requires Valid() && off <= size < capacity
      modifies this`size, data
      ensures Valid() && size == old(size) + 1
      ensures Contents() == old(Contents())[..off] + [v] + old(Contents())[off..]
    {
      if off < size {
        forall i | off <= i < size {
          data[i + 1] := data[i];
        }
      }
      data[off] := v;
      size := size + 1;
    }

    method PushFront(v: T)
      requires Valid()
      modifies this, data
      ensures Valid() && (data == old(data) || fresh(data)) && Costs() == Added(old(Costs()))
      ensures Grows(old(size), old(capacity), old(copied), capacity, copied)
      ensures Contents() == [v] + old(Contents())
    {
      if size == 0 {
        PushBack(v);
      } else {
        Insert(0, v);
      }
    }

    /** Erase the elements from off up to last. */
    method EraseRange(off: nat, last: nat)
      requires Valid() && off < size && off <= last <= size
      modifies this, data
      ensures Valid() && data == old(data) && Costs() == Removed(old(Costs()), last - off)
      ensures capacity == old(capacity) && copied == old(copied)
      ensures Contents() == old(Contents())[..off] + old(Contents())[last..]
    {
      var count := last - off;
      forall i | off <= i < size - count {
        data[i] := data[i + count];
      }
      size := size - count;
    }

    method Erase(off: nat)
      requires Valid() && off < size
      modifies this, data
      ensures Valid() && data == old(data) && Costs() == Removed(old(Costs()), 1)
      ensures capacity == old(capacity) && copied == old(copied)
      ensures Contents() == old(Contents())[..off] + old(Contents())[off + 1..]
    {
      forall i | off <= i < size - 1 {
        data[i] := data[i + 1];
      }
      size := size - 1;
    }

    /** The last element takes the place of the one erased. */
    method EraseUnsorted(off: nat)
      requires Valid() && off < size
      modifies this, data
      ensures Valid() && data == old(data) && Costs() == Removed(old(Costs()), 1)
      ensures capacity == old(capacity) && copied == old(copied)
      ensures Contents() == old(Contents())[off := old(Contents())[old(size) - 1]][..old(size) - 1]
    {
      if off < size - 1 {
        data[off] := data[size - 1];
      }
      size := size - 1;
    }

    /** The place of the first element equal to v, or the end. */
    method Find(v: T) returns (k: nat)
      requires Valid()
      ensures k <= size && v !in Contents()[..k] && (k < size ==> Contents()[k] == v)
    {
      k := 0;
      while k < size
        invariant k <= size && v !in Contents()[..k]
      {
        if data[k] == v {
          break;
        }
        k := k + 1;
      }
    }

    method FindErase(v: T) returns (found: bool)
      requires Valid()
      modifies this, data
      ensures Valid() && data == old(data) && (found <==> v in old(Contents()))
      ensures if found then
                exists k: nat :: FirstAt(old(Contents()), v, k)
                                 && Contents() == old(Contents())[..k] + old(Contents())[k + 1..]
              else Contents() == old(Contents())
    {
      var it := Find(v);
      if it < size {
        assert FirstAt(Contents(), v, it);
        Erase(it);
        return true;
      }
      return false;
    }
  }

  /** k is the place of the first v. */
  ghost predicate FirstAt<T>(s: seq<T>, v: T, k: nat) {
    k < |s| && s[k] == v && v !in s[..k]
  }

  /** Half as much again, but at least 8 and at least what is needed. */
  function Grown(capacity: nat, sz: nat): nat {
    var newCapacity := if capacity != 0 then capacity + capacity / 2 else 8;
    if newCapacity > sz then newCapacity else sz
  }

  /** A capacity that is too small grows to half as much again, rounded down, or to 8
      if there was none, and in any case to what is needed. */
  ghost predicate GrowsTo(before: nat, needed: nat, after: nat) {
    && needed <= after && (if before == 0 then 8 <= after else 3 * before <= 2 * after + 1)
    && (after == needed || if before == 0 then after == 8 else 2 * after <= 3 * before)
  }

  /** One element more: memory grows just when it is full, and then all elements move. */
  ghost predicate Grows(size: nat, capacity: nat, copied: nat, capacity': nat, copied': nat) {
    if size < capacity then capacity' == capacity && copied' == copied
    else GrowsTo(capacity, size + 1, capacity') && copied' == copied + size
  }

  // What reallocation costs.

  datatype State = State(size: nat, capacity: nat, copied: nat)

  function Reserved(s: State, newCapacity: nat): State {
    State(s.size, newCapacity, s.copied + if s.capacity > 0 then s.size else 0)
  }

  function Added(s: State): State {
    var r := if s.size == s.capacity then Reserved(s, Grown(s.capacity, s.size + 1)) else s;
    r.(size := s.size + 1)
  }

  function Removed(s: State, n: nat): State {
    s.(size := if n <= s.size then s.size - n else 0)
  }

  datatype Op = Add | Remove(count: nat)

  /** The state after the first n operations on an empty vector. */
  function After(ops: seq<Op>, n: nat): State
    requires n <= |ops|
  {
    if n == 0 then State(0, 0, 0)
    else match ops[n - 1]
      case Add => Added(After(ops, n - 1))
      case Remove(c) => Removed(After(ops, n - 1), c)
  }

  function Adds(ops: seq<Op>, n: nat): nat
    requires n <= |ops|
  {
    if n == 0 then 0 else Adds(ops, n - 1) + if ops[n - 1].Add? then 1 else 0
  }

  lemma GrownEnough(c: nat)
    requires c >= 8
    ensures 4 * c <= 3 * Grown(c, c + 1)
  {
  }

  /** Whatever is added and removed, reallocations copy fewer than four elements to
      an addition. */
  lemma {:induction false} AmortisedCost(ops: seq<Op>, n: nat)
    requires n <= |ops|
    ensures var s := After(ops, n);
            && s.size <= s.capacity && s.size <= Adds(ops, n)
            && (if s.capacity > 0 then s.capacity >= 8 && s.copied + 24 <= 3 * s.capacity else s.copied == 0)
            && (if Adds(ops, n) > 0 then s.copied < 4 * Adds(ops, n) else s == State(0, 0, 0))
  {
    if n > 0 {
      AmortisedCost(ops, n - 1);
      var c := After(ops, n - 1).capacity;
      if c >= 8 {
        GrownEnough(c);
      }
    }
  }
}
