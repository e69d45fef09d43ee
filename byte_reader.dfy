/** The part of Go's standard library that the ICNS decoder relies on, reduced to
    what the decoder can observe: a byte source with a read cursor
    (`bytes.Reader`), the exact-length reads that `binary.Read` performs through
    `io.ReadFull`, the copy-what-is-there `Read` of `bytes.Reader`, and the
    big-endian decoding of a `uint32`. */
module ByteReader {

  type byte = x: int | 0 <= x < 0x100
  type uint32 = x: int | 0 <= x < 0x1_0000_0000

  /** A fixed four-byte field (`[4]byte` in Go). */
  type Tag = s: seq<byte> | |s| == 4 witness [0, 0, 0, 0]

  /** The two errors the readers can report: `io.EOF` when nothing at all was
      available, `io.ErrUnexpectedEOF` when only part of a fixed-size value was. */
  datatype IoError = Eof | UnexpectedEof

  datatype Option<T> = None | Some(value: T)

  /** A `bytes.Reader`: the bytes it was created over and its cursor. As in Go,
      the cursor may lie past the end, in which case nothing is left to read. */
  datatype Reader = Reader(data: seq<byte>, pos: nat)

  /** The bytes a reader has not yet delivered. */
  function Unread(r: Reader): (u: seq<byte>)
    ensures |u| <= |r.data|
    ensures r.pos <= |r.data| ==> u == r.data[r.pos..]
  {
    if r.pos <= |r.data| then r.data[r.pos..] else []
  }

  /** The reader that has delivered `k` more bytes. */
  function Advance(r: Reader, k: nat): (next: Reader)
    requires k <= |Unread(r)|
    ensures next.data == r.data && next.pos == r.pos + k
    ensures Unread(next) == Unread(r)[k..]
  {
    if k == 0 then r else Reader(r.data, r.pos + k)
  }

  function Min(a: nat, b: nat): (m: nat) { if a < b then a else b }

  /** The unsigned integer that four bytes denote, most significant first. */
  function BigEndian32(b: seq<byte>): (n: uint32)
    requires |b| == 4
  {
    ((b[0] as int * 0x100 + b[1]) * 0x100 + b[2]) * 0x100 + b[3]
  }

  /** The four bytes of `n`, most significant first. */
  function PutBigEndian32(n: uint32): (b: Tag) {
    [n / 0x100 / 0x100 / 0x100, n / 0x100 / 0x100 % 0x100, n / 0x100 % 0x100, n % 0x100]
  }

  lemma BigEndian32RoundTrip(n: uint32)
    ensures BigEndian32(PutBigEndian32(n)) == n
  {
    var m1 := n / 0x100;
    var m2 := m1 / 0x100;
    assert m2 == (m2 / 0x100) * 0x100 + m2 % 0x100;
    assert m1 == m2 * 0x100 + m1 % 0x100;
    assert n == m1 * 0x100 + n % 0x100;
  }

  lemma PutBigEndian32RoundTrip(b: seq<byte>)
    requires |b| == 4
    ensures PutBigEndian32(BigEndian32(b)) == b
  {
    var m2 := b[0] as int * 0x100 + b[1];
    var m1 := m2 * 0x100 + b[2];
    assert BigEndian32(b) / 0x100 == m1 && BigEndian32(b) % 0x100 == b[3];
    assert m1 / 0x100 == m2 && m1 % 0x100 == b[2];
    assert m2 / 0x100 == b[0] && m2 % 0x100 == b[1];
  }

  /** The outcome of a fixed-size read. */
  datatype Fill = Filled(bytes: seq<byte>, rest: Reader) | Failed(err: IoError, rest: Reader)

  /** `binary.Read` of an `n`-byte value, i.e. `io.ReadFull` on a `bytes.Reader`:
      all `n` bytes or an error; `io.EOF` only when nothing was available. A failed
      read still consumes whatever was there. */
  function ReadFull(r: Reader, n: nat): (f: Fill)
    ensures f.rest.data == r.data && f.rest.pos == r.pos + (|Unread(r)| - |Unread(f.rest)|)
    ensures f.Filled? <==> n <= |Unread(r)|
    ensures f.Filled? ==> f.bytes == Unread(r)[..n] && Unread(f.rest) == Unread(r)[n..]
    ensures f.Failed? ==> Unread(f.rest) == []
    ensures f.Failed? ==> (f.err == Eof <==> Unread(r) == [])
  {
    var u := Unread(r);
    if n <= |u| then Filled(u[..n], Advance(r, n))
    else Failed(if |u| == 0 then Eof else UnexpectedEof, Advance(r, |u|))
  }

  function Zeros(n: nat): (z: seq<byte>)
    ensures |z| == n && forall i :: 0 <= i < n ==> z[i] == 0
  {
    seq(n, _ => 0)
  }

  /** `make([]byte, n)`: a fresh buffer of `n` zero bytes. */
  method Make(n: nat) returns (buf: array<byte>)
    ensures fresh(buf) && buf[..] == Zeros(n)
  {
    buf := new byte[n](_ => 0);
  }

  /** `Read(buf)` of a `bytes.Reader`: at the end of the data it reports `io.EOF`
      whatever the buffer's size; otherwise it copies as many bytes as fit and are
      left, leaves the rest of `buf` alone and reports no error. */
  method Read(r: Reader, buf: array<byte>) returns (n: nat, err: Option<IoError>, next: Reader)
    modifies buf
    ensures next.data == r.data && next.pos == r.pos + n
    ensures err == (if Unread(r) == [] then Some(Eof) else None)
    ensures n == (if Unread(r) == [] then 0 else Min(buf.Length, |Unread(r)|))
    ensures buf[..] == Unread(r)[..n] + old(buf[..])[n..]
    ensures Unread(next) == Unread(r)[n..]
  {
    var u := Unread(r);
    if |u| == 0 {
      return 0, Some(Eof), r;
    }
    n := Min(buf.Length, |u|);
    forall i | 0 <= i < n {
      buf[i] := u[i];
    }
    err, next := None, Advance(r, n);
  }
}
