# Least-significant-bit steganography: the bit-packing core

This project models the core of the `least-significant-bit` tool. The tool hides
a text message in the pixel bytes of a bitmap and reads it back. The core has
two functions in `cmd/least-significant-bit/main.go`:

- `getEncodedBytes(data, message, terminateSymbol)` appends the terminator to
  the message to form the payload. It fails when the carrier has fewer than
  `len(payload) * 8` bytes. Otherwise it copies the carrier into a new buffer.
  In that buffer, bit `j` of payload byte `i` (least significant first)
  replaces the least-significant bit of byte `i * 8 + j`, and the upper seven
  bits of that byte are kept.
- `getDecodedMessage(data, terminateSymbol)` rebuilds up to `len(data) / 8`
  bytes. Byte `i` comes from the least-significant bits of
  `data[i*8 .. i*8+8)`. It stops before the first rebuilt byte equal to the
  terminator. When no byte equals the terminator, it returns every rebuilt
  byte.

Files:

- `lsb_spec.dfy`, module `LsbSpec`: bytes are `bv8`. It holds the specification
  functions `Encode` and `Decode` and the lemmas about them: what each carrier
  byte becomes, what each decoded byte is, and the round trip.
- `lsb.dfy`, module `Lsb`: the two functions as methods over arrays. They keep
  the source's nested `i`/`j` loops, its bit operations and its early `break`.
  Each method is proved equal to its specification function.
  `GetEncodedBytes` returns a fresh array. It has no `modifies` clause, so the
  caller's buffer is provably untouched.

Modelling choices:

- The byte width is the constant `ByteSize = 8`, as in the source.
- A Go `string` is a sequence of bytes, so messages are `seq<byte>`.
- The terminator has type `AsciiByte` (a byte below `0x80`). For such a rune,
  `string(terminateSymbol)` is exactly that one byte, and
  `byte(terminateSymbol)` is that same byte. The tool only ever passes `'#'`.
- The failure is `MessageTooLong(need)`. It carries the byte count that the
  error text reports.
- Integers are unbounded, so the capacity check never overflows. Go's `int`
  would overflow only for a payload of 2^28 bytes or more on a 32-bit target
  (see "Left out").
- Bit `k` of the payload always goes to carrier byte `k`; the code has no
  stride or channel offset.

## Model

| member | source | states |
|---|---|---|
| `Lsb.GetEncodedBytes` | cmd/least-significant-bit/main.go:41-61 | Fails exactly when `(len(message)+1)*8 > len(data)`, reporting that count. Otherwise it returns a freshly allocated buffer equal to `Encode` of the carrier. The input array is never written. |
| `Lsb.GetDecodedMessage` | cmd/least-significant-bit/main.go:63-83 | The nested loops with the early break return exactly `Decode(data)`. |
| `LsbSpec.Encode` | cmd/least-significant-bit/main.go:42-49 | Encoding fails exactly when the payload needs more than `len(data)` bytes, and the error carries `(len(message)+1)*8`. On success the buffer has the carrier's length. |
| `LsbSpec.ExtractBit` | cmd/least-significant-bit/main.go:54-56 | The encoder's `(c & (1 << j)) >> j` is bit `j` of `c`, as 0 or 1. |
| `LsbSpec.EncodeAt` | cmd/least-significant-bit/main.go:48-58 | For `k < (len(message)+1)*8`: `e[k] & 0xFE == data[k] & 0xFE`, and `e[k] & 1` is bit `k % 8` of payload byte `k / 8`. Every later byte is unchanged. |
| `LsbSpec.Payload` | cmd/least-significant-bit/main.go:42 | The message with the terminator byte appended. It has no contract of its own; `EncodeAt` and `GroupsOfEncoded` give its meaning. |
| `LsbSpec.PayloadBit` | cmd/least-significant-bit/main.go:51-54 | Bit `k % 8` of payload byte `k / 8`, extracted as the loop does. It has no contract of its own; `EncodeAt` gives its meaning. |
| `LsbSpec.SetLsb` | cmd/least-significant-bit/main.go:56 | Clears the LSB with `&^ 1` and ORs in the bit, keeping the upper seven bits. It has no contract of its own; `EncodeAt` gives its meaning. |
| `LsbSpec.EncodedByte` | cmd/least-significant-bit/main.go:51-57 | Carrier byte `k` after the encode loop. It has no contract of its own; `EncodeAt` gives its meaning. |
| `LsbSpec.Assemble` | cmd/least-significant-bit/main.go:68-73 | The decoder's accumulator after `n` steps of the inner loop. It has no contract of its own; `AssembleBits` gives its meaning. |
| `LsbSpec.GroupByte` | cmd/least-significant-bit/main.go:67-73 | Byte `i` rebuilt from the LSBs of `data[i*8 .. i*8+8)`. It has no contract of its own; `GroupByteBits` gives its meaning. |
| `LsbSpec.AssembleBits` | cmd/least-significant-bit/main.go:68-73 | After `n` steps of the inner decode loop, bit `j` of the accumulator is the LSB of `data[i*8+j]` for `j < n`, and 0 for `j >= n`. |
| `LsbSpec.OrShiftedBit` | cmd/least-significant-bit/main.go:72 | OR-ing a 0/1 bit in at position `m` changes bit `m` of the accumulator and no other bit. |
| `LsbSpec.GroupByteBits` | cmd/least-significant-bit/main.go:67-73 | Bit `j` of rebuilt byte `i` is the LSB of `data[i*8+j]`, so bytes are rebuilt LSB first. |
| `LsbSpec.Groups` | cmd/least-significant-bit/main.go:64 | The decoder can rebuild at most `len(data)/8` bytes. |
| `LsbSpec.TakeUntil` | cmd/least-significant-bit/main.go:75-79 | The result is a prefix of the rebuilt bytes that contains no terminator. When it is shorter than the input, the next byte is the terminator. |
| `LsbSpec.TakeUntilUnique` | cmd/least-significant-bit/main.go:75-77 | Only one prefix stops right before the first terminator, or at the end. |
| `LsbSpec.Decode` | cmd/least-significant-bit/main.go:63-83 | The result has at most `len(data)/8` bytes and never contains the terminator. Byte `i` is rebuilt byte `i`. A shorter result stops at a terminator. When no rebuilt byte is the terminator, all `len(data)/8` bytes are returned and decoding does not fail. |
| `LsbSpec.DecodeIgnoresTail` | cmd/least-significant-bit/main.go:64-71 | Decoding depends only on `data[..(len(data)/8)*8]`. A trailing partial group is never read. |
| `LsbSpec.GroupsOfEncoded` | cmd/least-significant-bit/main.go:51-57 | In an encoded buffer, rebuilt byte `i` is payload byte `i` for every `i <= len(message)`. |
| `LsbSpec.DecodeEncode` | cmd/least-significant-bit/main.go:41-83 | Decoding a successfully encoded buffer yields the message up to its first terminator byte. |
| `LsbSpec.RoundTrip` | cmd/least-significant-bit/main.go:41-83 | If encoding succeeds and the message does not contain the terminator, `Decode(Encode(data, m, t)) == m`. |

## Left out

- `openBMP`, `cloneImage`, `encodeMessageToImage`, `decodeMessageFromImage` and `main` (cmd/least-significant-bit/main.go:18-39, 85-155). These are file I/O, the external BMP codec and pixel copying through library `Set`/`At` calls. The model takes the pixel buffer as an array instead.
- The wording of the error message (cmd/least-significant-bit/main.go:45). Only the failure and its byte count are modelled.
- Terminator runes outside 0..0x7F. A Go `rune` is a signed 32-bit integer. Line 42 writes a rune above `0x7F` as several UTF-8 bytes and a negative one as U+FFFD, and line 75 truncates either to one byte. The tool only ever passes `'#'`.
- `Lsb.GetEncodedBytes`: does not model the wrap-around of Go's `int` in `len(msg)*byteSize` (main.go:44) and `i*byteSize + j` (main.go:53); the model's integers are unbounded. "Fails exactly when `(len(message)+1)*8 > len(data)`" holds whenever these products fit in `int`. That is always the case on 64-bit targets. On 32-bit targets it holds for messages under 2^28 − 1 bytes, which are payloads under 2^28 bytes. Beyond that, on a 32-bit target the product wraps modulo 2^32. If the wrapped value is not above `len(data)`, the check passes and the write at line 56 panics with an index out of range. This always happens for payloads of 2^28 to 2^29 − 1 bytes, where the wrapped value is negative. Otherwise the error at line 45 reports the wrapped count.
- `LsbSpec.Encode`: the same `int` overflow is not modelled, for the same reason; its "fails exactly when" clause holds under the same bound (payloads under 2^28 bytes on 32-bit targets).
- Go's `append` reallocation and the conversion of the decoded bytes to a string. The decoded message is a `seq<byte>`.
