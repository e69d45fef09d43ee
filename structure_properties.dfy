/** What the ICNS decoder does with the inputs it can be given: the header gate,
    the clean-end rule, the shape of every decoded entry, the lenient payload
    read, and the round trip through the wire format
    `"icns" ‖ length ‖ (type ‖ BE32(length) ‖ payload)*`. */
module StructureProperties {
  import opened ByteReader
  import opened Structure

  /** The wire form of one entry, with the length field it carries. */
  function EncodeEntry(e: FileData): (wire: seq<byte>) {
    e.typ + PutBigEndian32(e.length) + e.data
  }

  /** The wire form of a sequence of entries, in order. */
  function EncodeBody(es: seq<FileData>): (wire: seq<byte>) {
    if es == [] then [] else EncodeEntry(es[0]) + EncodeBody(es[1..])
  }

  /** An entry whose length field counts exactly its header and its payload. */
  predicate Complete(e: FileData) {
    e.length == EntryHeaderSize + |e.data|
  }

  predicate AllComplete(es: seq<FileData>) {
    forall i :: 0 <= i < |es| ==> Complete(es[i])
  }

  /** Entries, followed by the bytes `t`, that the decoder can read back: each
      complete, and the payload read of the last one must not find the stream
      already exhausted. */
  predicate Readable(es: seq<FileData>, t: seq<byte>) {
    AllComplete(es) && (t != [] || es == [] || es[|es| - 1].data != [])
  }

  /** The decoder's result for the container whose body decodes to `body`. */
  function WithHeader(length: uint32, body: Result<seq<FileData>>): (res: Result<FileStructure>) {
    match body
    case Ok(es) => Ok(FileStructure(Header(Magic, length), es))
    case Err(e) => Err(e)
  }

  lemma EncodeBodyLength(es: seq<FileData>)
    requires es != []
    ensures |EncodeBody(es)| >= |EncodeEntry(es[0])| >= EntryHeaderSize
  {
  }

  // ---------------------------------------------------------------------------
  // The header

  /** A valid header with its remaining bytes decodes as the body those bytes
      decode to, under a header that carries the given length field. */
  lemma DecodeAfterHeader(b: seq<byte>, t: seq<byte>)
    requires |b| == 4
    ensures DecodeIcns(Magic + b + t) == WithHeader(BigEndian32(b), DecodeBody(t))
  {
    var s := Magic + b + t;
    assert s[..4] == Magic && s[4..8] == b && s[8..] == t;
  }

  /** Fewer than 8 bytes: a header read error, and only then; the error carries
      `io.EOF` exactly when the input is empty. The magic is rejected exactly
      when 8 bytes are there and the first four are not "icns". */
  lemma HeaderErrors(s: seq<byte>)
    ensures (DecodeIcns(s).Err? && DecodeIcns(s).error.HeaderReadError?) <==> |s| < 8
    ensures |s| < 8 ==> DecodeIcns(s).error.cause == (if s == [] then Eof else UnexpectedEof)
    ensures (DecodeIcns(s).Err? && DecodeIcns(s).error.InvalidMagic?) <==> (|s| >= 8 && s[..4] != Magic)
    ensures |s| >= 8 && s[..4] != Magic ==> DecodeIcns(s).error.found == s[..4]
  {
    if |s| >= 8 && s[..4] == Magic {
      BodyErrorsAreEntryErrors(s[8..]);
    }
  }

  /** A wrong magic is rejected whatever follows it. */
  lemma MagicGate(h: seq<byte>, t: seq<byte>)
    requires |h| == 8 && h[..4] != Magic
    ensures DecodeIcns(h + t) == Err(InvalidMagic(h[..4]))
  {
    assert (h + t)[..4] == h[..4];
  }

  /** On success the header is "icns" and the big-endian value of bytes 4..7,
      and the body is what the rest decodes to. */
  lemma SuccessfulHeader(s: seq<byte>)
    requires DecodeIcns(s).Ok?
    ensures |s| >= 8 && s[..4] == Magic
    ensures DecodeIcns(s).value.header == Header(Magic, BigEndian32(s[4..8]))
    ensures DecodeBody(s[8..]) == Ok(DecodeIcns(s).value.body)
  {
  }

  /** The header's length field is never checked: replacing it changes only the
      length the result reports. */
  lemma HeaderLengthIgnored(s: seq<byte>, b: seq<byte>)
    requires |s| >= 8 && |b| == 4
    ensures var r, r' := DecodeIcns(s), DecodeIcns(s[..4] + b + s[8..]);
      && r'.Ok? == r.Ok?
      && (r.Ok? ==> r'.value == FileStructure(Header(Magic, BigEndian32(b)), r.value.body))
      && (r.Err? ==> r'.error == r.error)
  {
    var s' := s[..4] + b + s[8..];
    assert s'[..4] == s[..4] && s'[4..8] == b && s'[8..] == s[8..];
  }

  /** Exactly a valid header: an empty container. */
  lemma EmptyContainer(length: uint32)
    ensures DecodeIcns(Magic + PutBigEndian32(length)) == Ok(FileStructure(Header(Magic, length), []))
  {
    DecodeAfterHeader(PutBigEndian32(length), []);
    BigEndian32RoundTrip(length);
    assert Magic + PutBigEndian32(length) + [] == Magic + PutBigEndian32(length);
  }

  // ---------------------------------------------------------------------------
  // The body

  /** The body loop ends without error only when it finds no bytes at all at an
      entry boundary: a non-empty body never decodes to no entries. */
  lemma BodyEmptyIff(s: seq<byte>)
    ensures DecodeBody(s) == Ok([]) <==> s == []
  {
    if |s| > EntryHeaderSize {
      var rest := DecodeBody(s[EntryEnd(s)..]);
      if rest.Ok? {
        assert |[FirstEntry(s)] + rest.value| > 0;
      }
    }
  }

  /** The body fails only with an entry error; a type read that fails carries
      `io.ErrUnexpectedEOF` (a clean `io.EOF` there ends the loop), and a payload
      read that fails carries `io.EOF`. */
  lemma {:induction false} BodyErrorsAreEntryErrors(s: seq<byte>)
    ensures DecodeBody(s).Err? ==>
      match DecodeBody(s).error
      case EntryTypeReadError(cause) => cause == UnexpectedEof
      case EntryLengthReadError(_) => true
      case EntryDataReadError(cause) => cause == Eof
      case _ => false
    decreases |s|
  {
    if |s| > EntryHeaderSize {
      BodyErrorsAreEntryErrors(s[EntryEnd(s)..]);
    }
  }

  /** A complete entry in wire form, followed by `tail`, is read back as that
      entry, and the decoder goes on at `tail`. */
  lemma EncodedEntryIsFirst(e: FileData, tail: seq<byte>)
    requires Complete(e) && |e.data| + |tail| > 0
    ensures var s := EncodeEntry(e) + tail;
      |s| > EntryHeaderSize && FirstEntry(s) == e && s[EntryEnd(s)..] == tail
  {
    var s := EncodeEntry(e) + tail;
    EntryFields(e.typ, e.length, e.data + tail);
    assert s == e.typ + PutBigEndian32(e.length) + (e.data + tail);
    assert EntryEnd(s) == EntryHeaderSize + |e.data|;
    assert s[EntryHeaderSize..EntryEnd(s)] == e.data;
  }

  lemma EncodeBodyCons(e: FileData, es: seq<FileData>)
    ensures EncodeBody([e] + es) == EncodeEntry(e) + EncodeBody(es)
  {
    assert ([e] + es)[0] == e && ([e] + es)[1..] == es;
  }

  /** Complete entries followed by bytes `t` decode to those entries, in order,
      then to whatever `t` decodes to. */
  lemma {:induction false} DecodeAfterEntries(es: seq<FileData>, t: seq<byte>)
    requires Readable(es, t)
    ensures DecodeBody(EncodeBody(es) + t) == Prepend(es, DecodeBody(t))
    decreases |es|
  {
    if es == [] {
      assert EncodeBody(es) + t == t;
      if DecodeBody(t).Ok? {
        assert es + DecodeBody(t).value == DecodeBody(t).value;
      }
    } else {
      var e, more := es[0], es[1..];
      var tail := EncodeBody(more) + t;
      assert es == [e] + more;
      assert EncodeBody(es) + t == EncodeEntry(e) + tail by {
        EncodeBodyCons(e, more);
      }
      assert |e.data| + |tail| > 0 by {
        if more != [] {
          EncodeBodyLength(more);
        }
      }
      assert Readable(more, t) by {
        assert forall i :: 0 <= i < |more| ==> more[i] == es[i + 1];
      }
      EncodedEntryIsFirst(e, tail);
      DecodeAfterEntries(more, t);
      PrependPrepend([e], more, DecodeBody(t));
    }
  }

  /** The entry at the start of a stream is its first `EntryEnd` bytes in wire
      form, with zeros past the stream's end; its payload is as long as the
      wrapped `length - 8`. */
  lemma EncodeFirstEntry(s: seq<byte>)
    requires |s| > EntryHeaderSize
    ensures var e := FirstEntry(s);
      && |e.data| == PayloadSize(e.length)
      && EncodeEntry(e) == s[..EntryEnd(s)] + Zeros(PayloadSize(e.length) - (EntryEnd(s) - EntryHeaderSize))
  {
    PutBigEndian32RoundTrip(s[4..8]);
    assert s[..4] + s[4..8] + s[EntryHeaderSize..EntryEnd(s)] == s[..EntryEnd(s)];
  }

  /** Every decoded payload is as long as the wrapped `length - 8`. */
  lemma {:induction false} DecodedPayloadSizes(s: seq<byte>)
    requires DecodeBody(s).Ok?
    ensures var es := DecodeBody(s).value;
      forall i :: 0 <= i < |es| ==> |es[i].data| == PayloadSize(es[i].length)
    decreases |s|
  {
    if s != [] {
      var es, more := DecodeBody(s).value, DecodeBody(s[EntryEnd(s)..]).value;
      assert es == [FirstEntry(s)] + more;
      DecodedPayloadSizes(s[EntryEnd(s)..]);
      EncodeFirstEntry(s);
      forall i | 0 <= i < |es| ensures |es[i].data| == PayloadSize(es[i].length) {
        if i > 0 { assert es[i] == more[i - 1]; }
      }
    }
  }

  /** `enc` begins with `s` and holds only zeros after it. */
  predicate PaddedPrefix(s: seq<byte>, enc: seq<byte>) {
    |s| <= |enc| && enc[..|s|] == s && forall i :: |s| <= i < |enc| ==> enc[i] == 0
  }

  lemma PaddedPrefixConcat(a: seq<byte>, b: seq<byte>, y: seq<byte>)
    requires PaddedPrefix(b, y)
    ensures PaddedPrefix(a + b, a + y)
  {
    assert (a + y)[..|a + b|] == a + y[..|b|];
    forall i | |a + b| <= i < |a + y| ensures (a + y)[i] == 0 {
      assert (a + y)[i] == y[i - |a|];
    }
  }

  /** An entry whose payload the stream cuts short runs to the stream's end, and
      its wire form is the stream padded with zeros. */
  lemma CutShortEntryMatches(s: seq<byte>)
    requires |s| > EntryHeaderSize
    requires EntryEnd(s) - EntryHeaderSize < PayloadSize(FirstEntry(s).length)
    ensures EntryEnd(s) == |s|
    ensures PaddedPrefix(s, EncodeBody([FirstEntry(s)]))
  {
    var e := FirstEntry(s);
    EncodeFirstEntry(s);
    var pad := Zeros(PayloadSize(e.length) - (EntryEnd(s) - EntryHeaderSize));
    assert EncodeBody([e]) == s + pad by {
      EncodeBodyCons(e, []);
      assert [e] + [] == [e];
    }
    PaddedPrefixConcat(s, [], pad);
    assert s + [] == s;
  }

  /** An entry read in full, followed by the wire form of the rest. */
  lemma FullEntryMatches(s: seq<byte>, more: seq<FileData>)
    requires |s| > EntryHeaderSize
    requires EntryEnd(s) - EntryHeaderSize == PayloadSize(FirstEntry(s).length)
    requires PaddedPrefix(s[EntryEnd(s)..], EncodeBody(more))
    ensures PaddedPrefix(s, EncodeBody([FirstEntry(s)] + more))
  {
    var end := EntryEnd(s);
    EncodeBodyCons(FirstEntry(s), more);
    EncodeFirstEntry(s);
    assert EncodeEntry(FirstEntry(s)) == s[..end];
    PaddedPrefixConcat(s[..end], s[end..], EncodeBody(more));
    assert s[..end] + s[end..] == s;
  }

  /** The stream is exactly the wire form of the decoded entries, in order,
      except that the wire form of the last payload may run past the stream's
      end, where it holds only zeros: every entry but the last lies wholly in
      the stream, the last one's header and first payload byte do too, and
      every payload is as long as its wrapped `length - 8`. */
  lemma {:induction false} DecodedBodyMatchesStream(s: seq<byte>)
    requires DecodeBody(s).Ok?
    ensures var es := DecodeBody(s).value;
      && PaddedPrefix(s, EncodeBody(es))
      && (es != [] ==> |EncodeBody(es[..|es| - 1])| + EntryHeaderSize < |s|)
      && (forall i :: 0 <= i < |es| ==> |es[i].data| == PayloadSize(es[i].length))
    decreases |s|
  {
    DecodedPayloadSizes(s);
    if s != [] {
      DecodedEntriesBeforeLastComplete(s);
      if EntryEnd(s) - EntryHeaderSize < PayloadSize(FirstEntry(s).length) {
        CutShortEntryMatches(s);
        LastEntry(s);
      } else {
        var s' := s[EntryEnd(s)..];
        DecodedBodyMatchesStream(s');
        FullEntryMatches(s, DecodeBody(s').value);
      }
    }
  }

  /** Every decoded entry but the last lies wholly in the stream, and so do the
      last one's header and at least one byte of its payload. */
  lemma {:induction false} DecodedEntriesBeforeLastComplete(s: seq<byte>)
    requires DecodeBody(s).Ok? && DecodeBody(s).value != []
    ensures var es := DecodeBody(s).value;
      |EncodeBody(es[..|es| - 1])| + EntryHeaderSize < |s|
    decreases |s|
  {
    var e, end := FirstEntry(s), EntryEnd(s);
    var s' := s[end..];
    var es, more := DecodeBody(s).value, DecodeBody(s').value;
    assert es == [e] + more;
    if more == [] {
      assert es[..|es| - 1] == [];
    } else {
      BodyEmptyIff(s');
      EncodeFirstEntry(s);
      assert end == |EncodeEntry(e)|;
      DecodedEntriesBeforeLastComplete(s');
      var front := more[..|more| - 1];
      assert es[..|es| - 1] == [e] + front;
      assert ([e] + front)[1..] == front;
      assert EncodeBody(es[..|es| - 1]) == EncodeEntry(e) + EncodeBody(front);
    }
  }

  // ---------------------------------------------------------------------------
  // Whole containers

  /** A valid header, complete entries and then bytes `t`: the entries, in order,
      then what `t` decodes to; the header reports the given length field. */
  lemma DecodeContainer(b: seq<byte>, es: seq<FileData>, t: seq<byte>)
    requires |b| == 4 && Readable(es, t)
    ensures DecodeIcns(Magic + b + (EncodeBody(es) + t)) == WithHeader(BigEndian32(b), Prepend(es, DecodeBody(t)))
  {
    DecodeAfterHeader(b, EncodeBody(es) + t);
    DecodeAfterEntries(es, t);
  }

  /** Round trip: a container built from complete entries, the last of which has
      a non-empty payload, decodes to exactly those entries and the given header
      length, whatever that length is. */
  lemma RoundTrip(length: uint32, es: seq<FileData>)
    requires AllComplete(es) && (es == [] || es[|es| - 1].data != [])
    ensures DecodeIcns(Magic + PutBigEndian32(length) + EncodeBody(es)) == Ok(FileStructure(Header(Magic, length), es))
  {
    DecodeAfterHeader(PutBigEndian32(length), EncodeBody(es));
    assert EncodeBody(es) + [] == EncodeBody(es);
    DecodeAfterEntries(es, []);
    BigEndian32RoundTrip(length);
    assert es + [] == es;
  }

  /** Why the round trip needs a non-empty last payload: a final entry of length 8
      makes the payload read find the stream at its end, which is an error. */
  lemma FinalEmptyEntryRejected(length: uint32, es: seq<FileData>, typ: Tag)
    requires AllComplete(es)
    ensures DecodeIcns(Magic + PutBigEndian32(length) + EncodeBody(es + [FileData(typ, 8, [])]))
         == Err(EntryDataReadError(Eof))
  {
    var last := FileData(typ, 8, []);
    EncodeBodyAppend(es, last);
    assert EncodeEntry(last) == typ + PutBigEndian32(8);
    PayloadAtEnd(PutBigEndian32(length), es, typ, 8);
  }

  lemma {:induction false} EncodeBodyAppend(es: seq<FileData>, e: FileData)
    ensures EncodeBody(es + [e]) == EncodeBody(es) + EncodeEntry(e)
    decreases |es|
  {
    if es == [] {
      assert [] + [e] == [e];
    } else {
      assert (es + [e])[1..] == es[1..] + [e];
      EncodeBodyAppend(es[1..], e);
    }
  }

  /** 1 to 7 bytes at an entry boundary: an error, on the type read when fewer than
      4 are there, else on the length read (`io.EOF` if exactly the type was there). */
  lemma TruncatedEntryHeader(b: seq<byte>, es: seq<FileData>, t: seq<byte>)
    requires |b| == 4 && AllComplete(es) && 1 <= |t| < EntryHeaderSize
    ensures DecodeIcns(Magic + b + (EncodeBody(es) + t))
         == Err(if |t| < 4 then EntryTypeReadError(UnexpectedEof)
                else EntryLengthReadError(if |t| == 4 then Eof else UnexpectedEof))
  {
    DecodeContainer(b, es, t);
  }

  /** An entry header with nothing after it: the payload read finds the stream at
      its end and fails with `io.EOF`, whatever the length field says (8 included). */
  lemma PayloadAtEnd(b: seq<byte>, es: seq<FileData>, typ: Tag, length: uint32)
    requires |b| == 4 && AllComplete(es)
    ensures DecodeIcns(Magic + b + (EncodeBody(es) + (typ + PutBigEndian32(length))))
         == Err(EntryDataReadError(Eof))
  {
    var t := typ + PutBigEndian32(length);
    assert |t| == EntryHeaderSize;
    assert DecodeBody(t) == Err(EntryDataReadError(Eof));
    DecodeContainer(b, es, t);
    assert Prepend(es, DecodeBody(t)) == Err(EntryDataReadError(Eof));
    assert WithHeader(BigEndian32(b), Prepend(es, DecodeBody(t))) == Err(EntryDataReadError(Eof));
  }

  /** An entry header and fewer payload bytes than the wrapped `length - 8`,
      at the end of the stream: one entry, those bytes padded with zeros. */
  lemma ShortPayloadEntry(typ: Tag, length: uint32, p: seq<byte>)
    requires 0 < |p| < PayloadSize(length)
    ensures DecodeBody(typ + PutBigEndian32(length) + p)
         == Ok([FileData(typ, length, p + Zeros(PayloadSize(length) - |p|))])
  {
    ShortPayloadFirstEntry(typ, length, p);
    LastEntry(typ + PutBigEndian32(length) + p);
  }

  lemma ShortPayloadFirstEntry(typ: Tag, length: uint32, p: seq<byte>)
    requires 0 < |p| < PayloadSize(length)
    ensures var t := typ + PutBigEndian32(length) + p;
      |t| > EntryHeaderSize && EntryEnd(t) == |t| && FirstEntry(t) == FileData(typ, length, p + Zeros(PayloadSize(length) - |p|))
  {
    var t := typ + PutBigEndian32(length) + p;
    EntryFields(typ, length, p);
    assert EntryEnd(t) == |t|;
    assert t[EntryHeaderSize..EntryEnd(t)] == p;
  }

  /** The fields of an entry's wire form are where the decoder looks for them. */
  lemma EntryFields(typ: Tag, length: uint32, p: seq<byte>)
    ensures var t := typ + PutBigEndian32(length) + p;
      t[..4] == typ && BigEndian32(t[4..8]) == length && t[EntryHeaderSize..] == p
  {
    var t := typ + PutBigEndian32(length) + p;
    assert t[4..8] == PutBigEndian32(length);
    BigEndian32RoundTrip(length);
  }

  /** An entry that runs to the end of the stream is the stream's only entry. */
  lemma LastEntry(t: seq<byte>)
    requires |t| > EntryHeaderSize && EntryEnd(t) == |t|
    ensures DecodeBody(t) == Ok([FirstEntry(t)])
  {
    assert t[EntryEnd(t)..] == [];
    assert [FirstEntry(t)] + [] == [FirstEntry(t)];
  }

  /** A payload cut short by the end of the stream is accepted: the bytes that
      are there come first, zeros fill the rest up to the wrapped `length - 8`,
      and the entry is the last one. With a length below 8 the payload size
      wraps around to nearly 2^32. */
  lemma ShortPayload(b: seq<byte>, es: seq<FileData>, typ: Tag, length: uint32, p: seq<byte>)
    requires |b| == 4 && AllComplete(es)
    requires 0 < |p| < PayloadSize(length)
    ensures DecodeIcns(Magic + b + (EncodeBody(es) + (typ + PutBigEndian32(length) + p)))
         == Ok(FileStructure(Header(Magic, BigEndian32(b)),
                             es + [FileData(typ, length, p + Zeros(PayloadSize(length) - |p|))]))
  {
    DecodeContainer(b, es, typ + PutBigEndian32(length) + p);
    ShortPayloadEntry(typ, length, p);
  }

  // ---------------------------------------------------------------------------
  // Concrete inputs

  const Ic08: Tag := [0x69, 0x63, 0x30, 0x38]

  /** A 26-byte container holding one "ic08" entry of length 18 and a 10-byte payload. */
  lemma OneIc08Entry(p: seq<byte>)
    requires |p| == 10
    ensures DecodeIcns(Magic + [0, 0, 0, 0x1A] + (Ic08 + [0, 0, 0, 0x12] + p))
         == Ok(FileStructure(Header(Magic, 26), [FileData(Ic08, 18, p)]))
  {
    var e := FileData(Ic08, 18, p);
    assert PutBigEndian32(26) == [0, 0, 0, 0x1A] && PutBigEndian32(18) == [0, 0, 0, 0x12];
    RoundTrip(26, [e]);
    assert EncodeBody([e]) == Ic08 + [0, 0, 0, 0x12] + p;
  }

  /** A length of 20 with only 5 payload bytes before the end is accepted, the
      payload padded with 7 zeros. */
  lemma TruncatedPayloadAccepted(p: seq<byte>)
    requires |p| == 5
    ensures DecodeIcns(Magic + [0, 0, 0, 0x1A] + (Ic08 + PutBigEndian32(20) + p))
         == Ok(FileStructure(Header(Magic, 26), [FileData(Ic08, 20, p + Zeros(7))]))
  {
    assert PutBigEndian32(26) == [0, 0, 0, 0x1A];
    BigEndian32RoundTrip(26);
    ShortPayload([0, 0, 0, 0x1A], [], Ic08, 20, p);
    assert EncodeBody([]) + (Ic08 + PutBigEndian32(20) + p) == Ic08 + PutBigEndian32(20) + p;
    assert [] + [FileData(Ic08, 20, p + Zeros(7))] == [FileData(Ic08, 20, p + Zeros(7))];
  }

  /** A length of 4 is not rejected: `4 - 8` wraps to 2^32 - 4, and the entry takes
      every byte that follows, padded with zeros to that size. */
  lemma LengthBelowHeaderWraps(p: seq<byte>)
    requires 0 < |p| < 0x1_0000_0000 - 4
    ensures DecodeIcns(Magic + [0, 0, 0, 0] + (Ic08 + PutBigEndian32(4) + p))
         == Ok(FileStructure(Header(Magic, 0), [FileData(Ic08, 4, p + Zeros(0x1_0000_0000 - 4 - |p|))]))
  {
    ShortPayload([0, 0, 0, 0], [], Ic08, 4, p);
    assert EncodeBody([]) + (Ic08 + PutBigEndian32(4) + p) == Ic08 + PutBigEndian32(4) + p;
    assert [] + [FileData(Ic08, 4, p + Zeros(0x1_0000_0000 - 4 - |p|))]
        == [FileData(Ic08, 4, p + Zeros(0x1_0000_0000 - 4 - |p|))];
  }
}
