/**
 * The message to hide (`InsertableMessage`): a file read one byte at a time
 * and delivered one bit at a time, most significant bit of each byte first.
 * The file is given as its byte contents.
 */
module InsertableMessage {
  import opened Basics
  import opened Bits

  class InsertableMessage {
    /** The contents of the message file. */
    const file: seq<Byte>
    /** mBuffer[0]: the byte currently being delivered. */
    var buffer: Byte
    /** mCount: how many bits of `buffer` are still to be delivered. */
    var count: int
    /** mIsFileFinished. */
    var finished: bool
    /** How many bytes the input stream has handed out so far. */
    var next: nat

    ghost predicate Valid()
      reads this
    {
      0 < |file| && 1 <= next <= |file| && 1 <= count <= 8 &&
      (finished ==> next == |file| && count == 8) &&
      (!finished ==> buffer == file[next - 1])
    }

    /** How many bits `NextBit` has delivered so far. */
    ghost function Delivered(): nat
      reads this
      requires Valid()
    {
      if finished then 8 * |file| else 8 * (next - 1) + (8 - count)
    }

    /** Opening the file reads its first byte (the stream is not empty here). */
    constructor (contents: seq<Byte>)
      requires |contents| > 0
      ensures Valid() && file == contents && Delivered() == 0 && !finished
    {
      file := contents;
      buffer := contents[0];
      next := 1;
      count := 8;
      finished := false;
    }

    /**
     * The Java constructor: an empty file is refused with an IOException;
     * otherwise no bit has been delivered yet.
     */
    static method Open(contents: seq<Byte>) returns (r: Result<InsertableMessage>)
      ensures r.Failure? <==> |contents| == 0
      ensures r.Failure? ==> r.error == IOError
      ensures r.Success? ==> fresh(r.value) && r.value.Valid() && r.value.file == contents &&
                             r.value.Delivered() == 0 && r.value.NotFinished()
    {
      if |contents| == 0 {
        return Failure(IOError);
      }
      var m := new InsertableMessage(contents);
      return Success(m);
    }

    /** notFinished: bits remain to be delivered. */
    function NotFinished(): bool
      reads this
    {
      !finished
    }

    /** getSize: the size of the file in bytes. */
    function GetSize(): (n: nat)
      ensures n == |file|
    {
      |file|
    }

    /**
     * nextBit: the next bit of the message's bit stream. After the last bit of
     * the last byte the stream is finished and a further call is an IOException.
     */
    method NextBit() returns (r: Result<bool>)
      requires Valid()
      modifies this
      ensures Valid()
      ensures old(finished) ==> r == Failure(IOError) && unchanged(this)
      ensures !old(finished) ==> r == Success(MessageBits(file)[old(Delivered())]) &&
                                 Delivered() == old(Delivered()) + 1
      ensures finished <==> Delivered() == 8 * |file|
    {
      if finished {
        return Failure(IOError);
      }
      ghost var k := 8 - count;
      ghost var i := next - 1;
      var bit := (buffer / Pow2(count - 1)) % 2 == 1;
      MessageBitAt(file, i, k);
      ToLsbBit(buffer, 8, count - 1);
      assert bit == MessageBits(file)[8 * i + k];
      count := count - 1;
      if count == 0 {
        count := 8;
        if next < |file| {
          buffer := file[next];
          next := next + 1;
        } else {
          finished := true;
        }
      }
      return Success(bit);
    }
  }
}
