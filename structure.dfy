/** The ICNS (Apple Icon Image) container decoder: an 8-byte header (the magic
    "icns" and a big-endian total length) followed by self-describing entries,
    each a 4-byte type, a big-endian length that counts the entry's own 8 header
    bytes, and the payload.

    `DecodeIcns` and `DecodeBody` say, as functions of the bytes a reader still
    holds, what `ReadFile` produces; `ReadFile` is the decoder's loop over a
    read cursor, proved to produce exactly that. */
module Structure {
  import opened ByteReader

  /** The magic "icns". */
  const Magic: Tag := [0x69, 0x63, 0x6E, 0x73]

  /** The size of an entry's type and length fields. */
  const EntryHeaderSize := 8

  datatype Header = Header(magic: Tag, length: uint32)

  /** One entry; `data` is as long as the wrapped `length - 8`. */
  datatype FileData = FileData(typ: Tag, length: uint32, data: seq<byte>)

  datatype FileStructure = FileStructure(header: Header, body: seq<FileData>)

  /** The decoder's errors, each carrying the reader error whose text ends its message
      where there is one. */
  datatype DecodeError =
    | HeaderReadError(cause: IoError)
    | InvalidMagic(found: Tag)
    | EntryTypeReadError(cause: IoError)
    | EntryLengthReadError(cause: IoError)
    | EntryDataReadError(cause: IoError)

  datatype Result<T> = Ok(value: T) | Err(error: DecodeError)

  /** The payload size `length - 8` computed in uint32 arithmetic, which wraps
      around below 8. */
  function PayloadSize(length: uint32): (n: uint32)
    ensures length >= EntryHeaderSize ==> n + EntryHeaderSize == length
    ensures length < EntryHeaderSize ==> n + EntryHeaderSize == length + 0x1_0000_0000
  {
    (length - EntryHeaderSize) % 0x1_0000_0000
  }

  /** Entries decoded so far, put in front of what the rest of the stream decodes to;
      an error in the rest is the error of the whole. */
  function Prepend(done: seq<FileData>, rest: Result<seq<FileData>>): (all: Result<seq<FileData>>) {
    match rest
    case Ok(es) => Ok(done + es)
    case Err(e) => Err(e)
  }

  /** Where the entry at the start of `s` ends: after its header and as much of
      its payload as `s` holds. */
  function EntryEnd(s: seq<byte>): (end: nat)
    requires |s| > EntryHeaderSize
    ensures EntryHeaderSize <= end <= |s|
  {
    EntryHeaderSize + Min(PayloadSize(BigEndian32(s[4..8])), |s| - EntryHeaderSize)
  }

  /** The entry at the start of `s`: the payload bytes that `s` holds, then zeros
      up to the payload size. */
  function FirstEntry(s: seq<byte>): (e: FileData)
    requires |s| > EntryHeaderSize
  {
    var length := BigEndian32(s[4..8]);
    FileData(s[..4], length, s[EntryHeaderSize..EntryEnd(s)] + Zeros(PayloadSize(length) - (EntryEnd(s) - EntryHeaderSize)))
  }

  /** The entries that the bytes `s`, starting at an entry boundary, decode to. */
  function DecodeBody(s: seq<byte>): (res: Result<seq<FileData>>)
    decreases |s|
  {
    if |s| == 0 then Ok([])
    else if |s| < 4 then Err(EntryTypeReadError(UnexpectedEof))
    else if |s| < EntryHeaderSize then Err(EntryLengthReadError(if |s| == 4 then Eof else UnexpectedEof))
    else if |s| == EntryHeaderSize then Err(EntryDataReadError(Eof))
    else Prepend([FirstEntry(s)], DecodeBody(s[EntryEnd(s)..]))
  }

  lemma PrependPrepend(a: seq<FileData>, b: seq<FileData>, rest: Result<seq<FileData>>)
    ensures Prepend(a, Prepend(b, rest)) == Prepend(a + b, rest)
  {
    if rest.Ok? {
      assert a + (b + rest.value) == (a + b) + rest.value;
    }
  }

  /** What `ReadFile` returns for a reader whose unread bytes are `s`. */
  function DecodeIcns(s: seq<byte>): (res: Result<FileStructure>) {
    if |s| < 8 then Err(HeaderReadError(if |s| == 0 then Eof else UnexpectedEof))
    else if s[..4] != Magic then Err(InvalidMagic(s[..4]))
    else
      match DecodeBody(s[8..])
      case Ok(body) => Ok(FileStructure(Header(Magic, BigEndian32(s[4..8])), body))
      case Err(e) => Err(e)
  }

  /** One iteration's reads from `cur`: the type, the length, and a payload
      buffer of zeros filled from what follows, which delivered at least one
      byte. The entry they make is the one at the start of the unread bytes, and
      the bytes left are those after it. */
  lemma ReadEntryIsFirstEntry(cur: Reader, typ: Fill, len: Fill, data: seq<byte>, next: Reader)
    requires typ == ReadFull(cur, 4) && typ.Filled?
    requires len == ReadFull(typ.rest, 4) && len.Filled?
    requires Unread(len.rest) != []
    requires var size, payload := PayloadSize(BigEndian32(len.bytes)), Unread(len.rest);
      var n := Min(size, |payload|);
      data == payload[..n] + Zeros(size)[n..] && Unread(next) == payload[n..]
    ensures |Unread(cur)| > EntryHeaderSize
    ensures FileData(typ.bytes, BigEndian32(len.bytes), data) == FirstEntry(Unread(cur))
    ensures Unread(next) == Unread(cur)[EntryEnd(Unread(cur))..]
  {
    var u := Unread(cur);
    assert typ.bytes == u[..4] && Unread(typ.rest) == u[4..];
    assert len.bytes == u[4..8] && Unread(len.rest) == u[EntryHeaderSize..];
  }

  /** Decodes an ICNS container from `r`: reads the header, checks the magic, then
      reads entries until a type read finds the stream cleanly at its end.
      Returns the result and the reader after the reads, which has consumed
      everything except when the magic was wrong. */
  method ReadFile(r: Reader) returns (res: Result<FileStructure>, after: Reader)
    ensures res == DecodeIcns(Unread(r))
    ensures after.data == r.data
    ensures Unread(after) == if res.Err? && res.error.InvalidMagic? then Unread(r)[8..] else []
    ensures after.pos == r.pos + (|Unread(r)| - |Unread(after)|)
  {
    var header := ReadFull(r, 8);
    if header.Failed? {
      return Err(HeaderReadError(header.err)), header.rest;
    }
    var magic: Tag, length := header.bytes[..4], BigEndian32(header.bytes[4..8]);
    assert magic == Unread(r)[..4] && header.bytes[4..8] == Unread(r)[4..8];
    if magic != Magic {
      return Err(InvalidMagic(magic)), header.rest;
    }
    ghost var entries := Unread(header.rest);
    var body: seq<FileData> := [];
    var cur := header.rest;
    assert DecodeBody(entries).Ok? ==> [] + DecodeBody(entries).value == DecodeBody(entries).value;
    while true
      invariant cur.data == r.data && cur.pos == r.pos + (|Unread(r)| - |Unread(cur)|)
      invariant DecodeBody(entries) == Prepend(body, DecodeBody(Unread(cur)))
      decreases |Unread(cur)|
    {
      var typ := ReadFull(cur, 4);
      if typ.Failed? {
        if typ.err == Eof {
          break;
        }
        return Err(EntryTypeReadError(typ.err)), typ.rest;
      }
      var len := ReadFull(typ.rest, 4);
      if len.Failed? {
        return Err(EntryLengthReadError(len.err)), len.rest;
      }
      var entryLength := BigEndian32(len.bytes);
      var dataLength := PayloadSize(entryLength);
      var buf := Make(dataLength);
      var _, err, next := Read(len.rest, buf);
      if err.Some? {
        return Err(EntryDataReadError(err.value)), next;
      }
      var entry := FileData(typ.bytes, entryLength, buf[..]);
      ReadEntryIsFirstEntry(cur, typ, len, buf[..], next);
      PrependPrepend(body, [entry], DecodeBody(Unread(next)));
      body := body + [entry];
      cur := next;
    }
    assert body + [] == body && entries == Unread(r)[8..];
    return Ok(FileStructure(Header(magic, length), body)), cur;
  }
}
