/**
 The growable buffer of util/databuffer.h. `buffer.Length` is the source's `m_capacity`.
 */
module DataBuffers {

  class DataBuffer<T(0)> {
    var size: nat
    var buffer: array<T>

    ghost predicate Valid()
      reads this
    {
      size <= buffer.Length
    }

    /** The elements added so far. */
    ghost function Contents(): seq<T>
      requires Valid()
      reads this, buffer
    {
      buffer[..size]
    }

    constructor (res: nat)
      ensures Valid() && Contents() == [] && buffer.Length == res && fresh(buffer)
    {
      size := 0;
      buffer := new T[res];
    }

    /** `setData`: the buffer becomes a copy of `data`, with size zero. */
    method SetData(data: seq<T>)
      modifies this
      ensures Valid() && fresh(buffer) && size == 0
      ensures buffer[..] == data
    {
      buffer := new T[|data|](i requires 0 <= i < |data| => data[i]);
      size := 0;
    }

    /** `setSize`: everything in front of `s` counts as added. */
    method SetSize(s: nat)
      requires s <= buffer.Length
      modifies this`size
      ensures Valid() && Contents() == buffer[..s]
    {
      size := s;
    }

    /** `reserve`: room for `n` elements; the elements added so far are kept. */
    method Reserve(n: nat)
      requires Valid()
      modifies this`buffer
      ensures Valid() && Contents() == old(Contents())
      ensures buffer.Length == if n > old(buffer.Length) then n else old(buffer.Length)
      ensures buffer == old(buffer) || fresh(buffer)
    {
      if n > buffer.Length {
        var copy := new T[n];
        for i := 0 to size
          invariant buffer == old(buffer) && fresh(copy) && copy.Length == n
          invariant copy[..i] == buffer[..i]
        {
          copy[i] := buffer[i];
        }
        buffer := copy;
      }
    }

    /**
     `grow`: size at least `n`, by doubling the capacity as often as needed. Doubling an empty
     capacity would never end, so callers must not grow a buffer of capacity zero.
     */
    method Grow(n: nat)
      requires Valid() && (n <= buffer.Length || buffer.Length > 0)
      modifies this
      ensures Valid() && size == if n <= old(size) then old(size) else n
      ensures Contents()[..old(size)] == old(Contents())
      ensures if n <= old(buffer.Length) then buffer == old(buffer) else fresh(buffer)
      ensures buffer.Length >= old(buffer.Length)
      ensures buffer.Length == old(buffer.Length) || n <= buffer.Length < 2 * n
    {
      if n <= size {
        return;
      }
      if n > buffer.Length {
        var newCapacity := 2 * buffer.Length;
        while newCapacity < n
          invariant old(buffer.Length) < newCapacity < 2 * n
          decreases n - newCapacity
        {
          newCapacity := newCapacity * 2;
        }
        Reserve(newCapacity);
      }
      assert buffer[..size] == old(Contents());
      size := n;
      assert Contents()[..old(size)] == buffer[..old(size)];
    }

    /** `add`. */
    method Add(v: T)
      requires Valid() && buffer.Length > 0
      modifies this, buffer
      ensures Valid() && buffer.Length >= old(buffer.Length)
      ensures buffer == old(buffer) || fresh(buffer)
      ensures Contents() == old(Contents()) + [v]
    {
      Grow(size + 1);
      assert buffer[..old(size)] == old(Contents());
      buffer[size - 1] := v;
    }

    /** `add_unchecked`: correct only while there is room, which the caller must know. */
    method AddUnchecked(v: T)
      requires Valid() && size < buffer.Length
      modifies this`size, buffer
      ensures Valid() && Contents() == old(Contents()) + [v]
    {
      buffer[size] := v;
      size := size + 1;
    }
  }
}
