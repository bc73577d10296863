/** The 64-byte buffer between the image writers and the output callback. */
module WriteBuffer {
  import opened Basics

  class WriteContext {
    const buffer: array<byte>
    var bufUsed: nat

    /** What the callback has received so far. */
    var sent: seq<byte>

    ghost predicate Valid()
      reads this, buffer
    {
      buffer.Length == 64 && bufUsed <= 64
    }

    /** Everything written, whether it was sent yet or not. */
    ghost function Written(): seq<byte>
      requires Valid()
      reads this, buffer
    {
      sent + buffer[..bufUsed]
    }

    constructor ()
      ensures Valid() && Written() == [] && fresh(buffer)
    {
      buffer := new byte[64](_ => 0);
      bufUsed, sent := 0, [];
    }

    /** Sends what is buffered, if anything is. */
    method Flush()
      requires Valid()
      modifies this
      ensures Valid() && Written() == old(Written()) && bufUsed == 0 && sent == Written()
    {
      if bufUsed > 0 {
        sent := sent + buffer[..bufUsed];
        bufUsed := 0;
      }
    }

    method Write1(a: byte)
      requires Valid()
      modifies this, buffer
      ensures Valid() && Written() == old(Written()) + [a]
    {
      if bufUsed + 1 > 64 {
        Flush();
      }
      ghost var before := buffer[..bufUsed];
      Assoc(sent, before, [a]);
      buffer[bufUsed] := a;
      bufUsed := bufUsed + 1;
      assert buffer[..bufUsed] == before + [a];
    }

    method Write3(a: byte, b: byte, c: byte)
      requires Valid()
      modifies this, buffer
      ensures Valid() && Written() == old(Written()) + [a, b, c]
    {
      if bufUsed + 3 > 64 {
        Flush();
      }
      ghost var before := buffer[..bufUsed];
      Assoc(sent, before, [a, b, c]);
      var n := bufUsed;
      bufUsed := n + 3;
      buffer[n] := a;
      buffer[n + 1] := b;
      buffer[n + 2] := c;
      assert buffer[..bufUsed] == before + [a, b, c];
    }
  }
}
