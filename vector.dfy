/** `vector<T>`: a growable array with explicit size, capacity and buffer fields.
    The buffer is a Dafny array (null when the vector owns none); constructing
    and destroying elements in raw storage reduces to writing array cells. */
module Vectors {

  /** A `T*` into a buffer: the buffer and the offset in it. */
  datatype Iterator<T> = Iterator(buffer: array?<T>, offset: nat)

  /** The first capacity of a vector that grows from empty. */
  const DEFAULT_INITIAL: nat := 10

  /** The growth factor of a full vector. */
  const ENSURE_COEFFICIENT: nat := 2

  class Vector<T(0)> {
    var size: nat
    var capacity: nat
    var data: array?<T>

    /** The representation invariant: the buffer holds `capacity` cells, the
        first `size` of which are the elements; no buffer means no capacity. */
    ghost predicate Valid()
      reads this
    {
      && size <= capacity
      && (data == null ==> capacity == 0)
      && (data != null ==> data.Length == capacity)
    }

    /** The elements, front to back. */
    ghost function Contents(): seq<T>
      reads this, data
      requires Valid()
    {
      if data == null then [] else data[..size]
    }

    /** `vector()`: empty, no capacity, no buffer. */
    constructor()
      ensures Valid() && Contents() == [] && capacity == 0 && data == null
    {
      size := 0;
      capacity := 0;
      data := null;
    }

    /** The copy constructor: a buffer of exactly `other.size` cells, none at
        all when `other` is empty. */
    constructor Copy(other: Vector<T>)
      requires other.Valid()
      ensures Valid() && Contents() == other.Contents() && capacity == other.size
      ensures other.size == 0 ==> data == null
      ensures data == null || fresh(data)
    {
      size := other.size;
      capacity := other.size;
      data := null;
      if other.size != 0 {
        var buffer := new T[other.size];
        var constructed := 0;
        while constructed < other.size
          invariant 0 <= constructed <= other.size
          invariant buffer[..constructed] == other.data[..constructed]
        {
          buffer[constructed] := other.data[constructed];
          constructed := constructed + 1;
        }
        data := buffer;
      }
    }

    /** `operator=`: copy `other` first (so assigning a vector to itself is
        safe), release the own buffer and take the copy's fields. */
    method Assign(other: Vector<T>)
      requires Valid() && other.Valid()
      modifies this
      ensures Valid() && Contents() == old(other.Contents()) && capacity == old(other.size)
      ensures old(other.size) == 0 ==> data == null
    {
      var temp := new Vector.Copy(other);
      FullDestroy();
      capacity := 0;
      size := 0;
      Swap(temp);
    }

    /** `increase_capacity`: 10 for an empty vector, otherwise twice the capacity. */
    function IncreaseCapacity(): (r: nat)
      reads this
      ensures Valid() && size == capacity ==> r > capacity
      ensures size == 0 ==> r == DEFAULT_INITIAL
      ensures size != 0 ==> r == capacity * ENSURE_COEFFICIENT
    {
      if size == 0 then DEFAULT_INITIAL else capacity * ENSURE_COEFFICIENT
    }

    /** `full_destroy`: destroy the elements and release the buffer. The
        capacity is left for the caller to reset. */
    method FullDestroy()
      requires Valid()
      modifies this
      ensures size == 0 && data == null && capacity == old(capacity)
    {
      Clear();
      if data != null {
        data := null;
      }
    }

    /** `empty_swap`: release the own buffer and adopt the given one. */
    method EmptySwap(buffer: array<T>, newCapacity: nat, newSize: nat)
      requires Valid()
      modifies this
      ensures data == buffer && capacity == newCapacity && size == newSize
    {
      FullDestroy();
      data := buffer;
      capacity := newCapacity;
      size := newSize;
    }

    /** `new_buffer`: move the elements into a fresh buffer of the given capacity. */
    method NewBuffer(newCapacity: nat)
      requires Valid() && size <= newCapacity
      modifies this
      ensures Valid() && Contents() == old(Contents())
      ensures size == old(size) && capacity == newCapacity && fresh(data)
    {
      var elements := size;
      var buffer := new T[newCapacity];
      var constructed := 0;
      if size != 0 {
        while constructed < elements
          invariant 0 <= constructed <= elements && unchanged(this)
          invariant buffer[..constructed] == data[..constructed]
        {
          buffer[constructed] := data[constructed];
          constructed := constructed + 1;
        }
      }
      assert buffer[..elements] == old(Contents());
      EmptySwap(buffer, newCapacity, elements);
    }

    /** `push_back`: write into the spare cell, or grow first when full. The
        value is copied before any reallocation, so pushing one of the vector's
        own elements is safe. */
    method PushBack(element: T)
      requires Valid()
      modifies this, data
      ensures Valid() && Contents() == old(Contents()) + [element]
      ensures capacity == if old(size) == old(capacity) then old(IncreaseCapacity()) else old(capacity)
      ensures old(size) < old(capacity) ==> data == old(data)
      ensures old(size) == old(capacity) ==> fresh(data)
      decreases if size == capacity then 1 else 0, 1
    {
      var val := element;
      if size == capacity {
        PushBackRealloc(val);
      } else {
        data[size] := val;
        size := size + 1;
      }
    }

    /** `push_back_realloc`: grow to `increase_capacity()`, then push. */
    method PushBackRealloc(element: T)
      requires Valid() && size == capacity
      modifies this, data
      ensures Valid() && Contents() == old(Contents()) + [element]
      ensures capacity == old(IncreaseCapacity()) && fresh(data)
      decreases 1, 0
    {
      NewBuffer(IncreaseCapacity());
      PushBack(element);
    }

    /** `pop_back`: drop the last element; nothing happens to an empty vector. */
    method PopBack()
      requires Valid()
      modifies this
      ensures Valid() && capacity == old(capacity) && data == old(data)
      ensures Contents() == if old(size) == 0 then old(Contents()) else old(Contents())[..old(size) - 1]
    {
      if size != 0 {
        size := size - 1;
      }
    }

    /** `reserve`: grow the buffer to at least n cells; never shrinks. */
    method Reserve(n: nat)
      requires Valid()
      modifies this
      ensures Valid() && Contents() == old(Contents()) && size == old(size)
      ensures capacity == if n > old(capacity) then n else old(capacity)
      ensures if n > old(capacity) then fresh(data) else data == old(data)
    {
      if n > capacity {
        NewBuffer(n);
      }
    }

    /** `shrink_to_fit` as written: an empty vector that owns a buffer releases
        it but keeps its old capacity. */
    method ShrinkToFitAsWritten()
      requires Valid()
      modifies this
      ensures old(size) == 0 && old(data) != null ==>
                data == null && size == 0 && capacity == old(capacity)
      ensures !(old(size) == 0 && old(data) != null) ==>
                Valid() && Contents() == old(Contents()) && capacity == size
      ensures old(size) == old(capacity) && old(size) != 0 ==> data == old(data)
      ensures old(size) != old(capacity) && old(size) != 0 ==> fresh(data)
    {
      if size == 0 && data != null {
        data := null;
        return;
      }
      if size != capacity {
        NewBuffer(size);
      }
    }

    /** `shrink_to_fit` with the capacity reset together with the buffer. */
    method ShrinkToFit()
      requires Valid()
      modifies this
      ensures Valid() && Contents() == old(Contents()) && capacity == size
      ensures size == 0 ==> data == null
      ensures old(size) == old(capacity) && old(size) != 0 ==> data == old(data)
      ensures old(size) != old(capacity) && old(size) != 0 ==> fresh(data)
    {
      if size == 0 && data != null {
        data := null;
        capacity := 0;
        return;
      }
      if size != capacity {
        NewBuffer(size);
      }
    }

    /** `clear`: no elements, same buffer and capacity. */
    method Clear()
      requires Valid()
      modifies this
      ensures Valid() && Contents() == [] && capacity == old(capacity) && data == old(data)
    {
      if size != 0 && data != null {
        size := 0;
      }
    }

    /** `swap`: exchange buffer, size and capacity with `other`. */
    method Swap(other: Vector<T>)
      modifies this, other
      ensures data == old(other.data) && other.data == old(data)
      ensures size == old(other.size) && other.size == old(size)
      ensures capacity == old(other.capacity) && other.capacity == old(capacity)
      ensures old(other.Valid()) ==> Valid() && Contents() == old(other.Contents())
      ensures old(Valid()) ==> other.Valid() && other.Contents() == old(Contents())
    {
      var tempData := data;
      data := other.data;
      other.data := tempData;
      var temp := size;
      size := other.size;
      other.size := temp;
      temp := capacity;
      capacity := other.capacity;
      other.capacity := temp;
    }

    /** The loop `for (it = first; it != last; ++it) temp.push_back(*it)` with
        which insert and erase copy a run of cells [from, to) of another
        vector's buffer into a temporary vector. The buffer is kept while the
        run fits; one push past the capacity reallocates. */
    method AppendRange(src: array<T>, from: nat, to: nat)
      requires Valid() && from <= to <= src.Length && src != data
      modifies this, data
      ensures Valid() && Contents() == old(Contents()) + src[from..to]
      ensures size == old(size) + (to - from)
      ensures data == old(data) || fresh(data)
      ensures size <= old(capacity) ==> data == old(data) && capacity == old(capacity)
      ensures size == old(capacity) + 1 && old(capacity) > 0 ==> capacity == old(capacity) * ENSURE_COEFFICIENT
    {
      ghost var start, buffer, room := Contents(), data, capacity;
      var i := from;
      while i < to
        invariant from <= i <= to && Valid()
        invariant Contents() == start + src[from..i]
        invariant size == |start| + (i - from)
        invariant data == buffer || fresh(data)
        invariant size <= room ==> data == buffer && capacity == room
        invariant size == room + 1 && room > 0 ==> capacity == room * ENSURE_COEFFICIENT
      {
        assert src[from..i + 1] == src[from..i] + [src[i]];
        PushBack(src[i]);
        i := i + 1;
      }
    }

    /** The loop of `erase(pos)`, run by the temporary: push cells [0, n) of
        `src` except cell `skip`, and take `end()` where that cell would have
        gone. The run fits in the buffer, so the buffer stays. */
    method AppendSkipping(src: array<T>, n: nat, skip: nat) returns (at: Iterator<T>)
      requires Valid() && skip < n <= src.Length && src != data && size + n - 1 <= capacity
      modifies this, data
      ensures Valid() && Contents() == old(Contents()) + src[..skip] + src[skip + 1..n]
      ensures data == old(data) && capacity == old(capacity) && at == Iterator(data, old(size) + skip)
    {
      ghost var start := Contents();
      at := Iterator(null, 0);
      var i := 0;
      while i < n
        invariant 0 <= i <= n && Valid() && data == old(data) && capacity == old(capacity)
        invariant Contents() == if i <= skip then start + src[..i] else start + src[..skip] + src[skip + 1..i]
        invariant size == if i <= skip then |start| + i else |start| + i - 1
        invariant i > skip ==> at == Iterator(data, |start| + skip)
      {
        if i != skip {
          if i < skip {
            assert src[..i + 1] == src[..i] + [src[i]];
          } else {
            assert src[skip + 1..i + 1] == src[skip + 1..i] + [src[i]];
          }
          PushBack(src[i]);
        } else {
          assert src[skip + 1..i + 1] == [];
          at := Iterator(data, size);
        }
        i := i + 1;
      }
    }

    /** The body of `insert(pos, element)`, run by the empty temporary: push
        cells [0, pos) of `src`, then the new element, taking `&back()`, then
        cells [pos, n). When n fills the reserved capacity, the last push
        reallocates and the iterator taken before it is left behind. */
    method AppendInserting(src: array<T>, n: nat, pos: nat, element: T) returns (at: Iterator<T>)
      requires Valid() && size == 0 && pos < n <= capacity && n <= src.Length && src != data
      modifies this, data
      ensures Valid() && Contents() == src[..pos] + [element] + src[pos..n]
      ensures at.offset == pos
      ensures n < old(capacity) ==> capacity == old(capacity) && at.buffer == data
      ensures n == old(capacity) ==> capacity == old(capacity) * ENSURE_COEFFICIENT && at.buffer != data
    {
      assert old(Contents()) == [];
      AppendRange(src, 0, pos);
      PushBack(element);
      at := Iterator(data, size - 1);
      AppendRange(src, pos, n);
    }

    /** `insert(pos, element)` as written. Inserting at the end is `push_back`.
        Otherwise the elements and the new one are pushed into a temporary that
        reserved the old capacity, and the returned iterator is taken right after
        the new element is pushed. When the vector was full, the pushes after it
        make the temporary reallocate, so the iterator points into a released
        buffer. */
    method InsertAsWritten(pos: nat, element: T) returns (it: Iterator<T>)
      requires Valid() && pos <= size
      modifies this, data
      ensures Valid() && Contents() == old(Contents())[..pos] + [element] + old(Contents())[pos..]
      ensures capacity == if old(size) == old(capacity) then old(IncreaseCapacity()) else old(capacity)
      ensures it.offset == pos
      ensures it.buffer == data <==> pos == old(size) || old(size) < old(capacity)
    {
      var temp := new Vector<T>();
      if pos == size {
        ghost var elements := Contents();
        assert elements[..pos] == elements && elements[pos..] == [];
        PushBack(element);
        return Iterator(data, size - 1);
      }
      temp.Reserve(capacity);
      it := temp.AppendInserting(data, size, pos, element);
      Clear();
      capacity := 0;
      Swap(temp);
    }

    /** `insert` returning `begin() + index`, an iterator into the buffer the
        vector ends up with. */
    method Insert(pos: nat, element: T) returns (it: Iterator<T>)
      requires Valid() && pos <= size
      modifies this, data
      ensures Valid() && Contents() == old(Contents())[..pos] + [element] + old(Contents())[pos..]
      ensures capacity == if old(size) == old(capacity) then old(IncreaseCapacity()) else old(capacity)
      ensures it == Iterator(data, pos)
    {
      var stale := InsertAsWritten(pos, element);
      it := Iterator(data, pos);
    }

    /** `erase(pos)`: the last element is popped; otherwise every other element
        is pushed into a temporary that reserved the old capacity, which is
        then swapped in. The iterator names the position the element had. */
    method Erase(pos: nat) returns (it: Iterator<T>)
      requires Valid() && pos < size
      modifies this, data
      ensures Valid() && Contents() == old(Contents())[..pos] + old(Contents())[pos + 1..]
      ensures capacity == old(capacity) && it == Iterator(data, pos)
    {
      if pos == size - 1 {
        PopBack();
        return Iterator(data, size);
      }
      ghost var elements := Contents();
      var temp := new Vector<T>();
      temp.Reserve(capacity);
      it := temp.AppendSkipping(data, size, pos);
      Clear();
      capacity := 0;
      Swap(temp);
    }

    /** `erase(first, last)`: the elements before `first` and from `last` on are
        pushed into a temporary that reserved the old capacity, which is then
        swapped in; the result is `begin() + index(first)`. */
    method EraseRange(first: nat, last: nat) returns (it: Iterator<T>)
      requires Valid() && first <= last <= size
      modifies this, data
      ensures Valid() && Contents() == old(Contents())[..first] + old(Contents())[last..]
      ensures capacity == old(capacity) && it == Iterator(data, first)
    {
      ghost var elements := Contents();
      var temp := new Vector<T>();
      temp.Reserve(capacity);
      if data != null {  // an empty vector may own no buffer; both runs are then empty
        temp.AppendRange(data, 0, first);
        temp.AppendRange(data, last, size);
      }
      assert elements[last..size] == elements[last..];
      Swap(temp);
      it := Iterator(data, first);
    }
  }

  /** The steps of the `empty_storage_shrink_to_fit` test: push, pop, then
      `shrink_to_fit`. The buffer is released but the capacity still reads 10,
      so the next `push_back` finds size != capacity and writes its element
      through the null buffer. */
  method EmptiedShrinkKeepsCapacity(x: int) returns (v: Vector<int>)
    ensures v.data == null && v.size == 0 && v.capacity == DEFAULT_INITIAL
    ensures !v.Valid() && v.size != v.capacity
  {
    v := new Vector<int>();
    v.PushBack(x);
    v.PopBack();
    v.ShrinkToFitAsWritten();
  }

  /** With the corrected `shrink_to_fit` the same steps leave a valid empty vector. */
  method EmptiedShrinkFixed(x: int) returns (v: Vector<int>)
    ensures v.Valid() && v.Contents() == [] && v.data == null && v.capacity == 0
  {
    v := new Vector<int>();
    v.PushBack(x);
    v.PopBack();
    v.ShrinkToFit();
  }

  /** Inserting in front of the only element of a vector of capacity 1: the
      iterator `insert` returns points into a buffer the vector no longer uses. */
  method FullInsertStaleIterator(x: int, y: int) returns (v: Vector<int>, it: Iterator<int>)
    ensures v.Valid() && v.Contents() == [y, x]
    ensures it.offset == 0 && it.buffer != v.data
  {
    v := new Vector<int>();
    v.Reserve(1);
    v.PushBack(x);
    it := v.InsertAsWritten(0, y);
  }

  /** The corrected `insert` returns an iterator into the vector's own buffer. */
  method FullInsertFixed(x: int, y: int) returns (v: Vector<int>, it: Iterator<int>)
    ensures v.Valid() && v.Contents() == [y, x]
    ensures it == Iterator(v.data, 0)
  {
    v := new Vector<int>();
    v.Reserve(1);
    v.PushBack(x);
    it := v.Insert(0, y);
  }
}

