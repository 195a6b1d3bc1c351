/**
 * The recovered message (`RetrievedMessage`): bits are collected most
 * significant first into a one-byte buffer that is written out when full; on
 * close a partial byte is padded with zero low bits. The output file is
 * modelled as the sequence of bytes written to it.
 */
module RetrievedMessage {
  import opened Basics
  import opened Bits

  class RetrievedMessage {
    /** mBuffer: the bits of the byte being assembled. */
    var buffer: int
    /** mBitCount: how many bits `buffer` holds. */
    var bitCount: int
    /** mIsFinished. */
    var finished: bool
    /** Everything written to the output file so far. */
    var output: seq<Byte>
    /** Every bit passed to `SetNext` so far. */
    ghost var received: seq<bool>
    /** The received bits already written out, and those still in the buffer. */
    ghost var written: seq<bool>
    ghost var pending: seq<bool>

    ghost predicate Valid()
      reads this
    {
      received == written + pending &&
      (finished ==> bitCount == 0 && buffer == 0 && pending == [] && output == Pack(written)) &&
      (!finished ==>
         |written| % 8 == 0 && bitCount == |pending| < 8 &&
         buffer == FromMsb(pending) && output == Pack(written))
    }

    constructor ()
      ensures Valid() && !finished && received == [] && output == []
    {
      buffer := 0;
      bitCount := 0;
      finished := false;
      output := [];
      received := [];
      written := [];
      pending := [];
    }

    /** The buffer always fits in a byte: it holds fewer than eight bits. */
    lemma {:induction false} BufferBound()
      requires Valid()
      ensures 0 <= buffer < Pow2(bitCount) <= 128
    {
      if bitCount > 0 {
        Pow2Monotone(bitCount, 7);
        assert Pow2(7) == 128 by {
          Pow2Values();
        }
      }
    }

    /**
     * setNext: appends one bit; the eighth bit of a byte writes the byte out.
     * After `Close` this is an IOException.
     */
    method SetNext(bit: bool) returns (r: Result<()>)
      requires Valid()
      modifies this
      ensures Valid()
      ensures old(finished) ==> r == Failure(IOError) && unchanged(this)
      ensures !old(finished) ==> r.Success? && !finished && received == old(received) + [bit]
    {
      if finished {
        return Failure(IOError);
      }
      FromMsbAppend(pending, bit);
      assert received + [bit] == written + (pending + [bit]);
      buffer := buffer * 2 + (if bit then 1 else 0);
      bitCount := bitCount + 1;
      received := received + [bit];
      pending := pending + [bit];
      if bitCount == 8 {
        WriteFullByte();
      }
      return Success(());
    }

    /** The eighth bit of a byte has come in: the byte is written out and a new one begins. */
    method WriteFullByte()
      requires !finished && received == written + pending && |written| % 8 == 0
      requires bitCount == |pending| == 8 && buffer == FromMsb(pending) && output == Pack(written)
      modifies this
      ensures Valid() && !finished && received == old(received)
    {
      Flush(written, pending);
      WriteBuffer();
      written := written + pending;
      pending := [];
    }

    /** writeBuffer: writes the low byte of the buffer and starts a new byte. */
    method WriteBuffer()
      modifies this
      ensures output == old(output) + [old(buffer) % 256]
      ensures bitCount == 0 && buffer == 0
      ensures finished == old(finished) && received == old(received)
      ensures written == old(written) && pending == old(pending)
    {
      output := output + [buffer % 256];
      bitCount := 0;
      buffer := 0;
    }

    /**
     * close: a partial byte is shifted up to the most significant end, padded
     * with zeros and written; then the message is finished. Output is then
     * every received bit packed into bytes.
     */
    method Close()
      requires Valid()
      modifies this
      ensures Valid() && finished && received == old(received)
      ensures output == Pack(received)
    {
      if finished {
        assert received == written + pending;
        assert written + pending == written;
        return;
      }
      if bitCount > 0 {
        var left := 8 - bitCount;
        FlushPartial(written, pending, buffer * Pow2(left));
        buffer := buffer * Pow2(left);
        WriteBuffer();
        written := written + pending;
        pending := [];
      }
      assert pending == [];
      assert written + pending == written;
      assert received == written;
      finished := true;
    }
  }

  /** Writing a full buffer extends the output by the byte its eight bits spell. */
  lemma {:induction false} Flush(written: seq<bool>, pending: seq<bool>)
    requires |written| % 8 == 0 && |pending| == 8
    ensures FromMsb(pending) < 256
    ensures Pack(written + pending) == Pack(written) + [FromMsb(pending) % 256]
    ensures |written + pending| % 8 == 0
  {
    assert FromMsb(pending) < 256 by {
      Pow2Values();
    }
    LowByte(FromMsb(pending));
    PackAppend(written, pending);
    PackByte(pending);
  }

  /** Writing a partial buffer shifted up to the top of the byte. */
  lemma {:induction false} FlushPartial(written: seq<bool>, pending: seq<bool>, shifted: int)
    requires |written| % 8 == 0 && 0 < |pending| < 8
    requires shifted == FromMsb(pending) * Pow2(8 - |pending|)
    ensures shifted < 256
    ensures Pack(written + pending) == Pack(written) + [shifted % 256]
  {
    PadByte(pending, shifted);
    PackAppend(written, pending);
    LowByte(shifted);
  }

  /** A partial byte padded with zero low bits packs into the one byte `shifted`. */
  lemma {:induction false} PadByte(pending: seq<bool>, shifted: int)
    requires 0 < |pending| < 8
    requires shifted == FromMsb(pending) * Pow2(8 - |pending|)
    ensures 0 <= shifted < 256 && Pack(pending) == [shifted]
  {
    PaddedValue(pending, shifted);
    PaddedBound(pending, shifted);
    PackPartial(pending);
  }

  lemma {:induction false} PaddedValue(pending: seq<bool>, shifted: int)
    requires 0 < |pending| < 8
    requires shifted == FromMsb(pending) * Pow2(8 - |pending|)
    ensures FromMsb(pending + Zeros(8 - |pending|)) == shifted
  {
    FromMsbZeros(pending, 8 - |pending|);
  }

  lemma {:induction false} PaddedBound(pending: seq<bool>, shifted: int)
    requires 0 < |pending| < 8
    requires FromMsb(pending + Zeros(8 - |pending|)) == shifted
    ensures 0 <= shifted < 256
  {
    Pow2Values();
  }

  lemma {:induction false} PackPartial(pending: seq<bool>)
    requires 0 < |pending| < 8
    ensures Pack(pending) == [FromMsb(pending + Zeros(8 - |pending|))]
  {
  }

  lemma {:induction false} PackByte(b8: seq<bool>)
    requires |b8| == 8
    ensures Pack(b8) == [FromMsb(b8)]
  {
    assert b8[..8] == b8;
    assert b8[8..] == [];
  }
}
