/** DataBufferVector: a byte buffer that grows when something is pushed behind its end. */
module BufferVector {

  class DataBufferVector {
    var buffer: array<char>
    var offset: nat

    ghost predicate Valid()
      reads this
    {
      offset <= buffer.Length
    }

    /** What has been pushed. */
    function Contents(): (c: string)
      requires offset <= buffer.Length
      reads this, buffer
    {
      buffer[..offset]
    }

    constructor (initial: nat)
      ensures Valid() && Contents() == "" && fresh(buffer)
    {
      buffer := new char[initial](_ => '\0');
      offset := 0;
    }

    /** A larger buffer with the same beginning. */
    method Resize(size: nat)
      requires Valid() && offset <= size
      modifies this`buffer
      ensures Valid() && buffer.Length == size && fresh(buffer) && Contents() == old(Contents())
    {
      var old' := buffer;
      var n := offset;
      var larger := new char[size](i requires 0 <= i < size reads old' => if i < old'.Length then old'[i] else '\0');
      buffer := larger;
      assert larger[..n] == old'[..n];
    }

    method Reserve(size: nat)
      requires Valid()
      modifies this`buffer
      ensures Valid() && Contents() == old(Contents()) && (buffer == old(buffer) || fresh(buffer))
    {
      if buffer.Length < size {
        Resize(size);
      }
    }

    /** Grows by half if that is enough, else by the size needed, and appends. */
    method PushBack(p: string)
      requires Valid()
      modifies this, buffer
      ensures Valid() && Contents() == old(Contents()) + p && (buffer == old(buffer) || fresh(buffer))
    {
      if |p| == 0 {
        return;
      }
      ghost var before := Contents();
      var total := buffer.Length;
      if total < offset + |p| {
        if total + total / 2 >= offset + |p| {
          Resize(total + total / 2);
        } else {
          Resize(total + offset + |p|);
        }
      }
      forall i | 0 <= i < |p| {
        buffer[offset + i] := p[i];
      }
      assert buffer[..offset] == before;
      offset := offset + |p|;
      assert buffer[..offset] == before + p;
    }
  }
}
