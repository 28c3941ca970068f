/** The two loops of the least-significant-bit tool: writing a message into a
    copy of a carrier buffer, and reading it back. Each is proved against the
    specification functions of module LsbSpec. */
module Lsb {
  import opened LsbSpec

  /** Writes `message` and the terminator into a fresh copy of `data`, one
      payload bit per carrier byte; fails, without allocating, when the carrier
      has fewer than (|message| + 1) * 8 bytes. The caller's buffer is left as
      it was (no modifies clause). */
  method GetEncodedBytes(data: array<byte>, message: seq<byte>, terminator: AsciiByte)
    returns (r: Result<array<byte>>)
    ensures r.MessageTooLong? <==> (|message| + 1) * ByteSize > data.Length
    ensures r.MessageTooLong? ==> Encode(data[..], message, terminator) == MessageTooLong(r.need)
    ensures r.Ok? ==> fresh(r.value) && Encode(data[..], message, terminator) == Ok(r.value[..])
  {
    var msg := message + [terminator];
    if |msg| * ByteSize > data.Length {
      return MessageTooLong(|msg| * ByteSize);
    }

    ghost var carrier := data[..];
    var encoded := new byte[data.Length];
    forall k | 0 <= k < data.Length {
      encoded[k] := data[k];
    }

    var i := 0;
    while i < |msg|
      invariant 0 <= i <= |msg|
      invariant forall k :: 0 <= k < data.Length ==>
                  encoded[k] == if k < i * ByteSize then EncodedByte(carrier, msg, k) else carrier[k]
    {
      var c := msg[i];
      var j := 0;
      while j < ByteSize
        invariant 0 <= j <= ByteSize
        invariant forall k :: 0 <= k < data.Length ==>
                    encoded[k] == if k < i * ByteSize + j then EncodedByte(carrier, msg, k) else carrier[k]
      {
        var idx := i * ByteSize + j;
        var bit := c & (1 << j);
        assert idx / ByteSize == i && idx % ByteSize == j;
        assert encoded[idx] == carrier[idx];
        assert (encoded[idx] & !1) | (bit >> j) == EncodedByte(carrier, msg, idx);
        encoded[idx] := (encoded[idx] & !1) | (bit >> j);
        j := j + 1;
      }
      i := i + 1;
    }
    assert data[..] == carrier;
    assert encoded[..] == Encode(carrier, message, terminator).value;
    return Ok(encoded);
  }

  /** Rebuilds one byte from each group of eight carrier bytes, at most
      data.Length / 8 of them, and stops before the first byte equal to the
      terminator; without a terminator it returns every rebuilt byte. */
  method GetDecodedMessage(data: array<byte>, terminator: AsciiByte) returns (message: seq<byte>)
    ensures message == Decode(data[..], terminator)
  {
    var maxLength := data.Length / ByteSize;
    var msgBytes: seq<byte> := [];

    var i := 0;
    while i < maxLength
      invariant 0 <= i <= maxLength
      invariant msgBytes == Groups(data[..])[..i]
      invariant terminator !in msgBytes
    {
      var c: byte := 0;
      var j := 0;
      while j < ByteSize
        invariant 0 <= j <= ByteSize
        invariant c == Assemble(data[..], i, j)
      {
        var bit := data[i * ByteSize + j] & 1;
        c := c | (bit << j);
        j := j + 1;
      }

      if c == terminator {
        TakeUntilUnique(Groups(data[..]), terminator, i);
        break;
      }

      msgBytes := msgBytes + [c];
      i := i + 1;
    }
    if i == maxLength {
      TakeUntilUnique(Groups(data[..]), terminator, i);
    }
    message := msgBytes;
  }
}
