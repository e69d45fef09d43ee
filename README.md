# ICNS container decoder, modelled in Dafny

This project models `ReadFile`, the decoder for Apple's icon container format
(ICNS). It turns the bytes of an in-memory `bytes.Reader` into a
`FileStructure`:

- first a `Header`: the 4-byte magic, which must be `"icns"`, then a
  big-endian `uint32` total length;
- then the `Body`: the `FileData` entries in stream order. Each entry is a
  4-byte type, a big-endian `uint32` length that counts the entry's own 8
  header bytes, and `length - 8` payload bytes.

The decoder keeps reading entries until a type read finds the reader cleanly
at its end.

The model has three modules, one per file:

- `ByteReader` (`byte_reader.dfy`) covers what the decoder sees of Go's
  standard library.
  - The reader is a value: the bytes it holds and a cursor.
  - `binary.Read` of a fixed-size value is `io.ReadFull`. It gets all `n`
    bytes or fails. It fails with `io.EOF` only when nothing is left;
    otherwise it fails with `io.ErrUnexpectedEOF` and consumes what was there.
  - `bytes.Reader.Read` reports `io.EOF` at the end whatever the buffer's
    size. Otherwise it copies `min(len(buf), remaining)` bytes.
  - `make([]byte, n)` gives a zero-filled buffer.
  - `uint32` is encoded and decoded big-endian.
- `Structure` (`structure.dfy`) holds the source's types and the imperative
  `ReadFile`.
  - `ReadFile` is one `while` loop over a read cursor. It appends one entry
    per iteration and leaves by `break` or an early `return`.
  - It is proved equal to `DecodeIcns`, a recursive reference decoder written
    over the wire format.
  - It also returns the reader in its final state, because the Go function
    advances its caller's reader.
- `StructureProperties` (`structure_properties.dfy`) holds a wire-format
  encoder and the lemmas that say what the decoder accepts, rejects and
  returns.

The model follows the code. Where the code is more lenient than a strict
ICNS decoder would be, the lemmas state the lenient behaviour:

- A length below 8 is not rejected. `length - 8` wraps around in `uint32`,
  so a length of 4 asks for a payload of 2^32 - 4 bytes
  (`LengthBelowHeaderWraps`).
- A payload cut short by the end of the input is accepted. Its missing tail
  stays zero, as `make` left it (`ShortPayload`, `TruncatedPayloadAccepted`).
- The header's total length is parsed but never compared with anything
  (`HeaderLengthIgnored`).
- A final entry of length 8 is an error. Its zero-byte payload read finds the
  reader at its end, and `bytes.Reader.Read` reports `io.EOF` even for an
  empty buffer. The same entry is accepted when more bytes follow it
  (`FinalEmptyEntryRejected`, `RoundTrip`).

A stricter decoder would reject a length below 8, reject a truncated
payload, and accept a final length-8 entry. This one does none of these, and
the model keeps its behaviour in each case.

## Model

| member | source | states |
|---|---|---|
| `ByteReader.ReadFull` | structure.go:33 | `binary.Read` of an n-byte value gets exactly the next n bytes and advances the cursor by n, or fails; a failure is `io.EOF` exactly when no byte was left, and it consumes all remaining bytes |
| `ByteReader.Read` | structure.go:60 | at the end of the data the read reports `io.EOF` and changes nothing, whatever the buffer's size; otherwise it copies min(buffer size, remaining) bytes to the front of the buffer, leaves the rest of the buffer as it was and reports no error |
| `ByteReader.Make` | structure.go:59 | the payload buffer is fresh and holds `n` zero bytes |
| `ByteReader.BigEndian32RoundTrip` | structure.go:13 | reading back the big-endian bytes of any `uint32` gives that value |
| `ByteReader.PutBigEndian32RoundTrip` | structure.go:53 | any four bytes are the big-endian encoding of the `uint32` they decode to |
| `Structure.PayloadSize` | structure.go:58 | `length - 8` is computed modulo 2^32: it is exactly `length - 8` from 8 upward and `length - 8 + 2^32` below 8 |
| `Structure.ReadFile` | structure.go:30-69 | the loop returns exactly the reference decoder's result for the reader's unread bytes; the reader keeps its data and is left with nothing unread, except after a bad magic, when exactly the 8 header bytes have been consumed; its cursor moves by exactly the bytes consumed, so a cursor already past the end stays where it was |
| `Structure.ReadEntryIsFirstEntry` | structure.go:45-62 | one iteration's type read, length read and a payload read into a zeroed buffer that delivers at least one byte imply that more than 8 bytes were left, produce the entry the reference decoder finds at that position, and leave the cursor where the reference decoder goes on |
| `StructureProperties.HeaderErrors` | structure.go:33-40 | the result is a header read error iff the input is shorter than 8 bytes, carrying `io.EOF` iff it is empty; it is an invalid-magic error iff 8 bytes are there and the first four are not "icns", and the error carries those four bytes |
| `StructureProperties.MagicGate` | structure.go:38-40 | a header with the wrong magic is rejected with that magic whatever bytes follow it |
| `StructureProperties.SuccessfulHeader` | structure.go:11-14 | on success the input starts with "icns", the header is "icns" with the big-endian value of bytes 4..7, and the body is what the bytes after the header decode to |
| `StructureProperties.HeaderLengthIgnored` | structure.go:33-40 | replacing the header's length field changes neither success nor the body nor the error; only the reported length changes |
| `StructureProperties.DecodeAfterHeader` | structure.go:33-49 | "icns", any 4 length bytes and then a body decode to that body's result under a header that reports those length bytes |
| `StructureProperties.EmptyContainer` | structure.go:46-49 | an input that is exactly a valid header decodes successfully to that header and an empty body |
| `StructureProperties.BodyEmptyIff` | structure.go:43-49 | the body decodes to no entries, without error, iff no byte follows the header: the loop ends only on a clean end at an entry boundary |
| `StructureProperties.BodyErrorsAreEntryErrors` | structure.go:46-62 | after the header only entry errors occur; a failed type read carries `io.ErrUnexpectedEOF` (a clean `io.EOF` ends the loop) and a failed payload read carries `io.EOF` |
| `StructureProperties.DecodeAfterEntries` | structure.go:43-66 | complete entries in wire form, followed by any bytes `t`, decode to those entries in order and then to what `t` decodes to, errors included |
| `StructureProperties.DecodedPayloadSizes` | structure.go:58-59 | every decoded entry's payload is exactly as long as its `length - 8` computed in `uint32` |
| `StructureProperties.DecodedBodyMatchesStream` | structure.go:45-65 | the input is exactly the wire form of the decoded entries in order, nothing skipped or merged: the wire form starts with the input and holds only zeros after it; every entry but the last lies wholly inside the input, the last one's header and first payload byte do too, and every payload is as long as its `length - 8` computed in `uint32` |
| `StructureProperties.DecodedEntriesBeforeLastComplete` | structure.go:45-65 | every decoded entry but the last lies wholly inside the input, and so do the last entry's header and at least one of its payload bytes |
| `StructureProperties.DecodeContainer` | structure.go:30-68 | "icns", length bytes, complete entries and then any bytes `t` decode to those entries followed by what `t` decodes to, under the given header length |
| `StructureProperties.RoundTrip` | structure.go:30-68 | encoding any header length and any complete entries whose last payload is non-empty, then decoding, gives back exactly that header length and those entries in order |
| `StructureProperties.FinalEmptyEntryRejected` | structure.go:58-62 | a container whose last entry has length 8 fails with a payload read error carrying `io.EOF` |
| `StructureProperties.TruncatedEntryHeader` | structure.go:46-55 | 1 to 3 bytes at an entry boundary give a type read error (`io.ErrUnexpectedEOF`); 4 to 7 bytes give a length read error, carrying `io.EOF` when exactly the type was there |
| `StructureProperties.PayloadAtEnd` | structure.go:58-62 | an entry header with nothing after it fails with a payload read error carrying `io.EOF`, whatever its length field says |
| `StructureProperties.ShortPayloadEntry` | structure.go:58-62 | a type, a length and fewer than `length - 8` but at least one payload byte, at the end of the input, decode to one entry whose payload is those bytes followed by zeros |
| `StructureProperties.ShortPayload` | structure.go:58-62 | after complete entries, a payload cut short by the end of the input is accepted as the last entry: the remaining bytes first, zeros up to `length - 8` (wrapped), no error |
| `StructureProperties.OneIc08Entry` | structure.go:30-68 | the 26-byte container holding one "ic08" entry of length 18 decodes to header length 26 and that entry with its 10 payload bytes |
| `StructureProperties.TruncatedPayloadAccepted` | structure.go:58-62 | an entry of length 20 followed by only 5 payload bytes is accepted, its payload padded with 7 zeros |
| `StructureProperties.LengthBelowHeaderWraps` | structure.go:58-62 | an entry of length 4 is not rejected: its payload size wraps to 2^32 - 4, and it takes every following byte, padded with zeros |

## Left out

- main.go is not part of this model. It opens the file, calls `Stat`, reads the whole file into memory, prints the header and the first 16 bytes of each payload, and defines the `min` helper. All of that is I/O and display.
- The allocation in `make([]byte, length - 8)` is assumed to succeed. For a length below 8 it asks for about 4 GiB, and the possible out-of-memory panic is not modelled.
- Error values are constructors carrying the reader error (`io.EOF` or `io.ErrUnexpectedEOF`) whose text ends the message. The code formats that error with `%s`, not `%w`, so a Go caller cannot unwrap it (`errors.Is(err, io.EOF)` is false); the constructors record only which text the message carries, and the formatted message text is not modelled.
- Go's distinction between a nil and an empty `Body` slice is not modelled. Neither is the fact that the result is returned through a pointer.
- `bytes.Reader` is reduced to its data and cursor. Its other state, such as the last-rune marker used by `UnreadRune`, is not modelled, and nor are its seeking methods.
- The meaning of entry types and payloads (PNG, JPEG 2000 and so on) is not modelled: the decoder treats them as opaque bytes.
