/** `warctest` end to end: open the container, build the dictionary-aware decoder over the
    rewound file, and count the records of the decoded WARC stream. */
module Warctest {
  import opened Wrappers
  import opened Bytes
  import opened Reader
  import opened Container
  import opened Records

  /** `zstd::Decoder::with_dictionary` followed by `WarcReader` and `stream_records`: from the
      bytes the decoder reads and the dictionary, the items of the record stream; `None` when
      the decoder cannot be built from that dictionary. */
  type RecordDecoder = (seq<byte>, seq<byte>) -> Option<seq<Item>>

  datatype PipelineError = FrameFailed(frame: FrameError) | DecoderRejected

  /** The reference definition: the decoder reads the WHOLE file, not the bytes after the
      dictionary frame, together with the dictionary the container reader resolved. A
      `Success` means the run got past the open and the decoder; a report whose stop is
      `RecordFailed` or `BodyFailed` stands for the abort at that record. */
  function Pipeline(input: seq<byte>, decompress: Decompressor, decode: RecordDecoder)
    : (res: Result<Report, PipelineError>)
    ensures res.Failure? && res.error.FrameFailed? ==> Open(input, decompress) == Failure(res.error.frame)
    ensures Open(input, decompress).Failure? ==>
      res == Failure(FrameFailed(Open(input, decompress).error))
    ensures res == Failure(DecoderRejected) <==>
      Open(input, decompress).Success? && decode(input, Open(input, decompress).value.resolved.dict).None?
    ensures res.Success? ==> Open(input, decompress).Success? && res.value.skipped == 0
    ensures res.Success? ==> res.value.skipped <= res.value.count
  {
    match Open(input, decompress)
    case Failure(e) => Failure(FrameFailed(e))
    case Success(o) =>
      match decode(input, o.resolved.dict)
      case None => Failure(DecoderRejected)
      case Some(items) => Success(Report(Counted(items), 0, StopOf(items)))
  }

  /** Lines 22-92, the file's bytes given as `input`. */
  method RunWarctest(input: seq<byte>, decompress: Decompressor, decode: RecordDecoder)
    returns (outcome: Result<Report, PipelineError>)
    ensures outcome == Pipeline(input, decompress, decode)
  {
    var session := OpenContainer(input, decompress);
    if session.Failure? {
      return Failure(FrameFailed(session.error));
    }
    var r := session.value.stream;
    var br := decode(r.Remaining(), session.value.dict);
    if br.None? {
      return Failure(DecoderRejected);
    }
    var report := CountRecords(br.value);
    return Success(report);
  }

  /** A run that got past the open and the decoder counted the items the decoder produced from
      the whole file and the resolved dictionary: its count and stop are those of the loop over
      them, the count is bounded by them and nothing is ever skipped. */
  lemma PipelineReport(input: seq<byte>, decompress: Decompressor, decode: RecordDecoder)
    requires Pipeline(input, decompress, decode).Success?
    ensures Open(input, decompress).Success?
    ensures var dict := Open(input, decompress).value.resolved.dict;
      decode(input, dict).Some? &&
      Pipeline(input, decompress, decode).value.count <= |decode(input, dict).value|
    ensures Pipeline(input, decompress, decode).value.skipped == 0
    ensures var items := decode(input, Open(input, decompress).value.resolved.dict).value;
      Pipeline(input, decompress, decode).value.count == Counted(items) &&
      Pipeline(input, decompress, decode).value.stop == StopOf(items)
  {
    CountedBounds(decode(input, Open(input, decompress).value.resolved.dict).value);
  }

  /** A container with a raw dictionary whose records all read: the decoder is handed the
      whole container and that dictionary, and every record is counted. */
  lemma {:induction false} RawContainerCountsEveryRecord(frame: seq<byte>, payload: seq<byte>,
      decompress: Decompressor, decode: RecordDecoder, items: seq<Item>)
    requires 4 <= |frame| < TwoTo31 && frame[..4] == RawDictMagic
    requires decode(BuildContainer(frame, payload), frame) == Some(items)
    requires forall j :: 0 <= j < |items| ==> Complete(items[j])
    ensures Pipeline(BuildContainer(frame, payload), decompress, decode) == Success(Report(|items|, 0, EndOfStream))
  {
    OpenBuiltContainer(frame, payload, decompress);
    CountedBounds(items);
  }

  /** Two records, the second cut off inside its body: both are counted, the run stops at the
      second with a body failure. */
  lemma TruncatedSecondBody(input: seq<byte>, decompress: Decompressor, decode: RecordDecoder,
      body: seq<byte>)
    requires Open(input, decompress).Success?
    requires decode(input, Open(input, decompress).value.resolved.dict) == Some([Record(Some(body)), Record(None)])
    ensures Pipeline(input, decompress, decode) == Success(Report(2, 0, BodyFailed(1)))
  {
    FirstIncompleteAt([Record(Some(body)), Record(None)], 1);
  }
}
