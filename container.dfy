/** The container frame reader of `warctest`: the 8-byte header of a `.megawarc.warc.zst` file
    (a Zstandard skippable frame whose payload is the dictionary), the dictionary bytes, their
    signature, the optional decompression of a compressed dictionary, and the rewind that hands
    the whole file to the dictionary-aware decoder. */
module Container {
  import opened Wrappers
  import opened Bytes
  import opened Reader

  /** Skippable-frame magic of section 3.1.2 of RFC 8878, little-endian: 93, 42, 77, 24. */
  const ContainerMagic: seq<byte> := [0x5D, 0x2A, 0x4D, 0x18]
  /** Magic number of a raw Zstandard dictionary (section 5 of RFC 8878). */
  const RawDictMagic: seq<byte> := [0x37, 0xA4, 0x30, 0xEC]
  /** Magic number of a Zstandard frame (section 3.1.1 of RFC 8878). */
  const FrameMagic: seq<byte> := [0x28, 0xB5, 0x2F, 0xFD]

  /** Plain Zstandard decompression of a whole buffer (`zstd::Decoder::new` + `read_to_end`);
      `None` when the decoder cannot be built or the data does not decode. */
  type Decompressor = seq<byte> -> Option<seq<byte>>

  /** Every point at which the reader gives up (an `expect` or an index out of bounds). */
  datatype FrameError =
    | HeaderTruncated                           // fewer than 4 bytes for the magic
    | SizeTruncated                             // fewer than 4 bytes for the dictionary size
    | NegativeDictSize(declared: int)           // `dictsize as usize` of a negative size
    | DictTruncated(size: nat, available: nat)  // fewer than `size` bytes after the header
    | DictTooShort(length: nat)                 // a signature test runs off a short frame
    | DictDecodeFailed                          // the compressed dictionary does not decode
    | DecodedDictTooShort(length: nat)          // `dictbuf[0..3]` of a decoded dictionary too short

  /** The signature found at the start of the dictionary frame. */
  datatype DictKind = RawDictionary | CompressedDictionary | Unrecognized

  /** The magic as read (it is printed, not checked) and the declared dictionary size. */
  datatype Header = Header(magic: seq<byte>, dictSize: int)

  /** The frame bytes as read, their signature and the dictionary handed to the decoder. */
  datatype Resolved = Resolved(frame: seq<byte>, kind: DictKind, dict: seq<byte>)

  datatype Opened = Opened(header: Header, resolved: Resolved)

  /** What the decoder is built from: the dictionary and the reader over the file. */
  datatype Session = Session(dict: seq<byte>, stream: ByteReader)

  /** A signature test of lines 38-41 in source order: four byte comparisons joined by a
      short-circuit `&&`. A byte is indexed only when every comparison before it held, so the
      test panics (`None`) exactly when the frame is a proper prefix of the signature. */
  function TestSignature(d: seq<byte>, sig: seq<byte>): (r: Option<bool>)
    requires |sig| == 4
    ensures r.None? <==> |d| < 4 && d == sig[..|d|]
    ensures r == Some(true) <==> |d| >= 4 && d[..4] == sig
  {
    if |d| < 1 then None
    else if d[0] != sig[0] then Some(false)
    else if |d| < 2 then None
    else if d[1] != sig[1] then Some(false)
    else if |d| < 3 then None
    else if d[2] != sig[2] then Some(false)
    else if |d| < 4 then None
    else
      assert d[..4] == [d[0], d[1], d[2], d[3]];
      Some(d[3] == sig[3])
  }

  /** `is_normal_dict` (lines 38-39); `None` when it indexes past the end of the frame. */
  function IsNormalDict(d: seq<byte>): (r: Option<bool>)
    ensures r.None? <==> |d| < 4 && d == RawDictMagic[..|d|]
    ensures r == Some(true) <==> |d| >= 4 && d[..4] == RawDictMagic
  {
    TestSignature(d, RawDictMagic)
  }

  /** `is_comp_dict` (lines 40-41); `None` when it indexes past the end of the frame. */
  function IsCompDict(d: seq<byte>): (r: Option<bool>)
    ensures r.None? <==> |d| < 4 && d == FrameMagic[..|d|]
    ensures r == Some(true) <==> |d| >= 4 && d[..4] == FrameMagic
  {
    TestSignature(d, FrameMagic)
  }

  /** A frame on which one of the two signature tests runs off its end: shorter than four
      bytes and agreeing with one of the signatures on all of them (the empty frame included). */
  predicate IsSignaturePrefix(d: seq<byte>) {
    |d| < 4 && (d == RawDictMagic[..|d|] || d == FrameMagic[..|d|])
  }

  /** The signature of a dictionary frame, or `None` when the tests panic. The two tests are
      exclusive, so the kind is unique; a short frame that is not a signature prefix is
      unrecognised. */
  function Classify(d: seq<byte>): (r: Option<DictKind>)
    ensures r.None? <==> IsSignaturePrefix(d)
    ensures r == Some(RawDictionary) <==> |d| >= 4 && d[..4] == RawDictMagic
    ensures r == Some(CompressedDictionary) <==> |d| >= 4 && d[..4] == FrameMagic
    ensures r == Some(Unrecognized) <==>
      !IsSignaturePrefix(d) && !(|d| >= 4 && (d[..4] == RawDictMagic || d[..4] == FrameMagic))
  {
    match IsNormalDict(d)
    case None => None
    case Some(normal) =>
      match IsCompDict(d)
      case None => None
      case Some(comp) =>
        Some(if comp then CompressedDictionary else if normal then RawDictionary else Unrecognized)
  }

  /** The two 4-byte reads at the start of the file: the magic, then the size as an `i32`. */
  function ParseHeader(input: seq<byte>): (res: Result<Header, FrameError>)
    ensures res.Success? <==> |input| >= 8
    ensures |input| < 4 ==> res == Failure(HeaderTruncated)
    ensures 4 <= |input| < 8 ==> res == Failure(SizeTruncated)
    ensures res.Success? ==> res.value.magic == input[..4] && InI32(res.value.dictSize)
    ensures res.Success? ==> I32ToLe(res.value.dictSize) == input[4..8]
  {
    if |input| < 4 then Failure(HeaderTruncated)
    else if |input| < 8 then Failure(SizeTruncated)
    else
      EncodeDecode(input[4..8]);
      Success(Header(input[..4], LeI32(input[4..8])))
  }

  /** From the frame bytes to the dictionary: used as read unless the frame is itself a
      compressed Zstandard frame, in which case its decompression replaces it. */
  function ResolveDictionary(frame: seq<byte>, decompress: Decompressor): (res: Result<Resolved, FrameError>)
    ensures res.Success? <==>
      !IsSignaturePrefix(frame) &&
      (|frame| >= 4 && frame[..4] == FrameMagic ==>
         decompress(frame).Some? && |decompress(frame).value| >= 4)
    ensures res.Success? ==> res.value.frame == frame && Classify(frame) == Some(res.value.kind)
    ensures res.Success? && res.value.kind != CompressedDictionary ==> res.value.dict == frame
    ensures res.Success? && res.value.kind == CompressedDictionary ==>
      decompress(frame) == Some(res.value.dict) && |res.value.dict| >= 4
    ensures IsSignaturePrefix(frame) ==> res == Failure(DictTooShort(|frame|))
  {
    match Classify(frame)
    case None => Failure(DictTooShort(|frame|))
    case Some(kind) =>
      if kind != CompressedDictionary then Success(Resolved(frame, kind, frame))
      else
        match decompress(frame)
        case None => Failure(DictDecodeFailed)
        case Some(d) =>
          if |d| < 4 then Failure(DecodedDictTooShort(|d|))
          else Success(Resolved(frame, kind, d))
  }

  /** Reading a dictionary of the declared size from the bytes that follow the header. */
  function DictionaryFrom(rest: seq<byte>, size: int, decompress: Decompressor)
    : (res: Result<Resolved, FrameError>)
    ensures size < 0 ==> res == Failure(NegativeDictSize(size))
    ensures size > |rest| ==> res == Failure(DictTruncated(size, |rest|))
    ensures res.Success? ==> 0 <= size <= |rest| && res.value.frame == rest[..size]
  {
    if size < 0 then Failure(NegativeDictSize(size))
    else if |rest| < size then Failure(DictTruncated(size, |rest|))
    else ResolveDictionary(rest[..size], decompress)
  }

  /** The reference definition of the whole container open, as a function of the file's bytes.
      On success the magic is bytes 0..4, the size is the `i32` of bytes 4..8 and the frame is
      exactly the `size` bytes that follow. */
  function Open(input: seq<byte>, decompress: Decompressor): (res: Result<Opened, FrameError>)
    ensures res.Success? ==>
      |input| >= 8 && 0 <= res.value.header.dictSize <= |input| - 8 &&
      res.value.header.magic == input[..4] &&
      res.value.header.dictSize == LeI32(input[4..8]) &&
      res.value.resolved.frame == input[8..8 + res.value.header.dictSize]
  {
    match ParseHeader(input)
    case Failure(e) => Failure(e)
    case Success(h) =>
      match DictionaryFrom(input[8..], h.dictSize, decompress)
      case Failure(e) => Failure(e)
      case Success(d) =>
        assert input[8..][..h.dictSize] == input[8..8 + h.dictSize];
        Success(Opened(h, d))
  }

  /** A container as the archiving tool writes it: magic, `i32` frame size, frame, payload. */
  function BuildContainer(frame: seq<byte>, payload: seq<byte>): (c: seq<byte>)
    requires |frame| < TwoTo31
    ensures |c| == 8 + |frame| + |payload|
  {
    ContainerMagic + I32ToLe(|frame|) + frame + payload
  }

  // ---------------------------------------------------------------------------------------
  // The reader, step by step.

  /** Lines 26-32: the magic, then the dictionary size, read into the same 4-byte buffer.
      The first read consumes bytes 0..4, the second bytes 4..8. */
  method ReadHeader(r: ByteReader) returns (res: Result<Header, FrameError>)
    requires r.Valid() && r.pos == 0
    modifies r`pos
    ensures r.Valid()
    ensures res == ParseHeader(r.data)
    ensures res.Success? ==> r.pos == 8
    ensures res.Failure? ==> r.pos == |r.data|
  {
    var buf := new byte[4];
    var ok := r.ReadExact(buf);
    if !ok {
      return Failure(HeaderTruncated);
    }
    assert r.pos == 4;
    var magic := buf[..];
    ok := r.ReadExact(buf);
    if !ok {
      return Failure(SizeTruncated);
    }
    var dictsize := LeI32(buf[..]);
    return Success(Header(magic, dictsize));
  }

  /** Lines 35-67: allocate and read the dictionary, test its signature, and replace a
      compressed dictionary by its decompression (the buffer is cleared, then refilled). */
  method ReadDictionary(r: ByteReader, dictsize: int, decompress: Decompressor)
    returns (res: Result<Resolved, FrameError>)
    requires r.Valid()
    modifies r`pos
    ensures r.Valid()
    ensures res == DictionaryFrom(old(r.Remaining()), dictsize, decompress)
    ensures dictsize < 0 ==> r.pos == old(r.pos)
    ensures 0 <= dictsize && old(r.pos) + dictsize <= |r.data| ==> r.pos == old(r.pos) + dictsize
    ensures old(r.pos) + dictsize > |r.data| ==> r.pos == |r.data|
  {
    if dictsize < 0 {
      return Failure(NegativeDictSize(dictsize));
    }
    var available := |r.data| - r.pos;
    var dictbuf := new byte[dictsize];
    var ok := r.ReadExact(dictbuf);
    if !ok {
      return Failure(DictTruncated(dictsize, available));
    }
    var frame := dictbuf[..];
    assert frame == old(r.Remaining())[..dictsize];
    var isNormalDict := IsNormalDict(frame);
    if isNormalDict.None? {
      return Failure(DictTooShort(|frame|));
    }
    var isCompDict := IsCompDict(frame);
    if isCompDict.None? {
      return Failure(DictTooShort(|frame|));
    }
    var kind := if isCompDict.value then CompressedDictionary
                else if isNormalDict.value then RawDictionary
                else Unrecognized;
    var dict := frame;
    if isCompDict.value {
      var dictreader := dict;
      dict := [];
      match decompress(dictreader) {
        case None =>
          return Failure(DictDecodeFailed);
        case Some(decoded) =>
          dict := dict + decoded;
          assert dict == decoded;
      }
      if |dict| < 4 {
        return Failure(DecodedDictTooShort(|dict|));
      }
    }
    return Success(Resolved(frame, kind, dict));
  }

  /** Lines 24-69: open the file, read header and dictionary, then rewind to offset 0 so that
      the decoder is handed the entire file, header and dictionary frame included. */
  method OpenContainer(input: seq<byte>, decompress: Decompressor)
    returns (res: Result<Session, FrameError>)
    ensures res.Failure? <==> Open(input, decompress).Failure?
    ensures res.Failure? ==> res.error == Open(input, decompress).error
    ensures res.Success? ==> res.value.dict == Open(input, decompress).value.resolved.dict
    ensures res.Success? ==> res.value.stream.Valid() && res.value.stream.data == input
    ensures res.Success? ==> res.value.stream.pos == 0 && res.value.stream.Remaining() == input
  {
    var r := new ByteReader(input);
    var header := ReadHeader(r);
    if header.Failure? {
      return Failure(header.error);
    }
    assert r.Remaining() == input[8..];
    var dictionary := ReadDictionary(r, header.value.dictSize, decompress);
    if dictionary.Failure? {
      return Failure(dictionary.error);
    }
    r.Rewind();
    return Success(Session(dictionary.value.dict, r));
  }

  // ---------------------------------------------------------------------------------------
  // Properties of the reference definition.

  /** The open succeeds exactly when the header is complete, the declared size is
      non-negative and fits in the file, the frame does not run the signature tests off its
      end, and a compressed frame decodes to at least 4 bytes. */
  lemma OpenSucceedsIff(input: seq<byte>, decompress: Decompressor)
    ensures Open(input, decompress).Success? <==>
      |input| >= 8 &&
      0 <= LeI32(input[4..8]) <= |input| - 8 &&
      (var frame := input[8..8 + LeI32(input[4..8])];
       !IsSignaturePrefix(frame) &&
       (|frame| >= 4 && frame[..4] == FrameMagic ==>
          decompress(frame).Some? && |decompress(frame).value| >= 4))
  {
    if |input| >= 8 {
      var n := LeI32(input[4..8]);
      if 0 <= n <= |input| - 8 {
        assert input[8..][..n] == input[8..8 + n];
      }
    }
  }

  /** The dictionary handed to the decoder is the frame unchanged unless the frame carries the
      Zstandard frame magic (so also when the signature is unrecognised, a short frame
      included); otherwise it is the frame's decompression, replacing it wholesale. */
  lemma OpenDictionary(input: seq<byte>, decompress: Decompressor)
    requires Open(input, decompress).Success?
    ensures var o := Open(input, decompress).value.resolved;
      !IsSignaturePrefix(o.frame) &&
      Classify(o.frame) == Some(o.kind) &&
      (o.kind != CompressedDictionary ==> o.dict == o.frame) &&
      (o.kind == CompressedDictionary ==>
         o.frame[..4] == FrameMagic && decompress(o.frame) == Some(o.dict) && |o.dict| >= 4)
  {
  }

  /** Each failure, in the order the reader checks for it. */
  lemma OpenFailures(input: seq<byte>, decompress: Decompressor)
    ensures |input| < 4 ==> Open(input, decompress) == Failure(HeaderTruncated)
    ensures 4 <= |input| < 8 ==> Open(input, decompress) == Failure(SizeTruncated)
    ensures |input| >= 8 && LeI32(input[4..8]) < 0 ==>
      Open(input, decompress) == Failure(NegativeDictSize(LeI32(input[4..8])))
    ensures |input| >= 8 && LeI32(input[4..8]) > |input| - 8 ==>
      Open(input, decompress) == Failure(DictTruncated(LeI32(input[4..8]), |input| - 8))
    ensures (|input| >= 8 && 0 <= LeI32(input[4..8]) <= |input| - 8 &&
             IsSignaturePrefix(input[8..8 + LeI32(input[4..8])])) ==>
      Open(input, decompress) == Failure(DictTooShort(LeI32(input[4..8])))
    ensures (|input| >= 12 && 4 <= LeI32(input[4..8]) <= |input| - 8 &&
             input[8..12] == FrameMagic) ==>
      (var frame := input[8..8 + LeI32(input[4..8])];
       (decompress(frame).None? ==> Open(input, decompress) == Failure(DictDecodeFailed)) &&
       (decompress(frame).Some? && |decompress(frame).value| < 4 ==>
          Open(input, decompress) == Failure(DecodedDictTooShort(|decompress(frame).value|))))
  {
    if |input| >= 8 {
      var n := LeI32(input[4..8]);
      if 0 <= n <= |input| - 8 {
        assert input[8..][..n] == input[8..8 + n];
        if n >= 4 {
          assert input[8..8 + n][..4] == input[8..12];
        }
      }
    }
  }

  /** The magic is read but never compared: replacing it changes nothing but the magic. */
  lemma OpenIgnoresMagic(input: seq<byte>, m: seq<byte>, decompress: Decompressor)
    requires |input| >= 4 && |m| == 4
    ensures var a, b := Open(input, decompress), Open(m + input[4..], decompress);
      a.Success? == b.Success? &&
      (a.Failure? ==> a.error == b.error) &&
      (a.Success? ==> b.value == a.value.(header := a.value.header.(magic := m)))
  {
    var other := m + input[4..];
    assert other[4..] == input[4..];
    if |input| >= 8 {
      assert other[4..8] == input[4..8];
      assert other[8..] == input[8..];
      assert other[..4] == m;
    }
  }

  /** The reader looks at nothing past the dictionary frame: the payload never changes it. */
  lemma OpenIgnoresPayload(input: seq<byte>, tail: seq<byte>, decompress: Decompressor)
    requires Open(input, decompress).Success?
    ensures Open(input + tail, decompress) == Open(input, decompress)
  {
    var whole := input + tail;
    var n := LeI32(input[4..8]);
    assert whole[..4] == input[..4];
    assert whole[4..8] == input[4..8];
    assert whole[8..][..n] == input[8..][..n];
  }

  /** Reading back a container written by `BuildContainer` gives the container magic, the
      frame's length and the frame, whatever the payload. */
  lemma OpenBuiltContainer(frame: seq<byte>, payload: seq<byte>, decompress: Decompressor)
    requires |frame| < TwoTo31
    ensures var o, d := Open(BuildContainer(frame, payload), decompress), ResolveDictionary(frame, decompress);
      o.Success? == d.Success? &&
      (d.Failure? ==> o.error == d.error) &&
      (d.Success? ==> o.value == Opened(Header(ContainerMagic, |frame|), d.value))
  {
    var c := BuildContainer(frame, payload);
    DecodeEncode(|frame|);
    assert c[..4] == ContainerMagic;
    assert c[4..8] == I32ToLe(|frame|);
    assert c[8..][..|frame|] == frame;
  }

  /** The raw and the compressed form of one dictionary open to byte-identical dictionaries. */
  lemma RawAndCompressedAgree(raw: seq<byte>, comp: seq<byte>, p: seq<byte>, q: seq<byte>,
                              decompress: Decompressor)
    requires 4 <= |raw| < TwoTo31 && raw[..4] == RawDictMagic
    requires 4 <= |comp| < TwoTo31 && comp[..4] == FrameMagic
    requires decompress(comp) == Some(raw)
    ensures Open(BuildContainer(raw, p), decompress).Success?
    ensures Open(BuildContainer(comp, q), decompress).Success?
    ensures Open(BuildContainer(raw, p), decompress).value.resolved.dict == raw
    ensures Open(BuildContainer(comp, q), decompress).value.resolved.dict == raw
  {
    OpenBuiltContainer(raw, p, decompress);
    OpenBuiltContainer(comp, q, decompress);
  }

  /** A size field of `FF FF FF FF` is -1 and is refused before any buffer is allocated. */
  lemma NegativeSizeRejected(rest: seq<byte>, decompress: Decompressor)
    ensures Open(ContainerMagic + [0xFF, 0xFF, 0xFF, 0xFF] + rest, decompress) == Failure(NegativeDictSize(-1))
  {
    var c := ContainerMagic + [0xFF, 0xFF, 0xFF, 0xFF] + rest;
    assert c[4..8] == [0xFF, 0xFF, 0xFF, 0xFF];
  }

  /** The smallest accepted container: size 4, dictionary `37 A4 30 EC` used as it is. */
  lemma MinimalRawDictionary(payload: seq<byte>, decompress: Decompressor)
    ensures var o := Open(ContainerMagic + [4, 0, 0, 0] + RawDictMagic + payload, decompress);
      o.Success? && o.value.resolved.kind == RawDictionary && o.value.resolved.dict == RawDictMagic
  {
    var c := ContainerMagic + [4, 0, 0, 0] + RawDictMagic + payload;
    assert c[4..8] == [4, 0, 0, 0];
    assert c[8..][..4] == RawDictMagic;
  }

  /** A declared size of 0 is not an empty dictionary: the signature test fails first. */
  lemma EmptyDictionaryRejected(payload: seq<byte>, decompress: Decompressor)
    ensures Open(ContainerMagic + [0, 0, 0, 0] + payload, decompress) == Failure(DictTooShort(0))
  {
    var c := ContainerMagic + [0, 0, 0, 0] + payload;
    assert c[4..8] == [0, 0, 0, 0];
  }

  /** A one-byte frame that starts like neither signature passes both tests unmatched and is
      handed to the decoder as the dictionary. */
  lemma ShortUnrecognizedFrameAccepted(payload: seq<byte>, decompress: Decompressor)
    ensures var o := Open(ContainerMagic + [1, 0, 0, 0] + [0x00] + payload, decompress);
      o.Success? && o.value.resolved.kind == Unrecognized && o.value.resolved.dict == [0x00]
  {
    var c := ContainerMagic + [1, 0, 0, 0] + [0x00] + payload;
    assert c[4..8] == [1, 0, 0, 0];
    assert c[8..][..1] == [0x00];
  }

  /** A one-byte frame `28` passes the first test unmatched, then the second test indexes its
      second byte and the reader aborts. */
  lemma ShortSignaturePrefixRejected(payload: seq<byte>, decompress: Decompressor)
    ensures Open(ContainerMagic + [1, 0, 0, 0] + [0x28] + payload, decompress) == Failure(DictTooShort(1))
  {
    var c := ContainerMagic + [1, 0, 0, 0] + [0x28] + payload;
    assert c[4..8] == [1, 0, 0, 0];
    assert c[8..][..1] == [0x28];
    assert FrameMagic[..1] == [0x28];
  }
}
