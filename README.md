# warctest container reader, modelled in Dafny

This project models the part of `rust-warc-read-experiment` that the repository implements
itself: the reader for ArchiveTeam's `.megawarc.warc.zst` container, and the loop that counts
the records of the decoded WARC stream (`warctest` in `src/main.rs`).

A megawarc file is a Zstandard stream that carries its own dictionary. It begins with a
skippable frame (section 3.1.2 of RFC 8878): a 4-byte magic `5D 2A 4D 18`, then a 4-byte
little-endian frame size, then that many bytes. Those bytes are either a raw Zstandard
dictionary, starting with `37 A4 30 EC` (section 5 of RFC 8878), or a Zstandard frame, starting
with `28 B5 2F FD` (section 3.1.1 of RFC 8878), that decompresses to the dictionary. The
program reads this frame, resolves the dictionary, and rewinds the file to offset 0. It then
builds a dictionary-aware decoder over the whole file, wraps it in a WARC reader, and counts
records until the stream ends or a record fails.

Modules, one per stage of that function:

- `Bytes`: the `u8` type, `i32::from_le_bytes` (`LeI32`) and its inverse `I32ToLe`.
- `Reader`: `ByteReader` is the `BufReader<File>`. It is a class that holds the file's bytes
  and a read position, with `ReadExact` and `Rewind`.
- `Container`: `Open` is the reference definition of the header and dictionary stage, written
  as a function of the file's bytes. It is built from `ParseHeader`, `DictionaryFrom` and
  `ResolveDictionary`. The method `ReadHeader` is proved equal to `ParseHeader`,
  `ReadDictionary` to `DictionaryFrom`, and `OpenContainer` to `Open`. The lemmas state what
  `Open` accepts, what it returns and how it fails.
- `Records`: `CountRecords` is the `while let` loop, proved against `Counted` and `StopOf`.
- `Warctest`: `RunWarctest` runs the whole function and is proved equal to `Pipeline`.

The points where the source aborts (an `expect`, or an index out of bounds) become error
values. Those of the header and dictionary stage are the variants of `FrameError`. A decoder
that rejects the dictionary (line 70) is `PipelineError.DecoderRejected`. A record that fails
to parse (line 79) or whose body fails to read (line 83) ends the loop with the `Stop` value
`RecordFailed` or `BodyFailed`. The `expect` on `rewind` (line 69) is not modelled (see
"Left out").

The model follows the code in these points:

- The magic is read and printed, never compared. A file with another magic is processed the
  same way (`OpenIgnoresMagic`).
- An unrecognised dictionary signature is not an error. The frame bytes are handed to the
  decoder unchanged (`OpenDictionary`).
- The two signature tests compare bytes 0 to 3 with a short-circuit `&&`, the raw-dictionary
  test first. A frame shorter than 4 bytes therefore aborts only when it agrees with one of
  the signatures on all of its bytes; a size of 0 always aborts (`DictTooShort`,
  `EmptyDictionaryRejected`, `ShortSignaturePrefixRejected`). Any other short frame is an
  unrecognised dictionary and is used as it is (`ShortUnrecognizedFrameAccepted`).
- There is no upper bound on the declared size. A negative size is refused because
  `dictsize as usize` turns it into an allocation that cannot succeed (`NegativeDictSize`).
- A decompressed dictionary shorter than 4 bytes aborts the run. The diagnostic print of
  `dictbuf[0..3]` at lines 63-66 indexes out of bounds (`DecodedDictTooShort`).
- No record is ever skipped: `skipped` stays 0. `count` is incremented before the body is
  buffered, so a record whose body fails to read is counted before the run aborts.

## Model

| member | source | states |
|---|---|---|
| `Bytes.LeI32` | src/main.rs:32 | the size is the two's-complement value of the four bytes and lies in the `i32` range; it is negative exactly when the last byte is at least 128, and is then the unsigned value minus 2^32 |
| `Bytes.DecodeEncode` | src/main.rs:32 | decoding the little-endian bytes of any `i32` value gives that value back |
| `Bytes.EncodeDecode` | src/main.rs:32 | any four bytes are the little-endian encoding of their decoded `i32`, so the decoding is one-to-one |
| `Reader.ByteReader.constructor` | src/main.rs:24 | a newly opened reader holds the file's bytes and is at position 0 |
| `Reader.ByteReader.ReadExact` | src/main.rs:26-36 | succeeds exactly when enough bytes remain; then it fills the buffer with the next bytes and advances by the buffer's length; otherwise it consumes the rest and leaves the buffer as it was |
| `Reader.ByteReader.Rewind` | src/main.rs:69 | the position is 0 again and the remaining bytes are the whole file |
| `Container.TestSignature` | src/main.rs:38-41 | a short-circuit test of four bytes against a signature aborts exactly when the frame is a proper prefix of the signature, and holds exactly when the first four bytes are the signature |
| `Container.IsNormalDict` | src/main.rs:38-39 | `is_normal_dict` aborts exactly when the frame is a proper prefix of `37 A4 30 EC`, and holds exactly when the frame starts with those four bytes |
| `Container.IsCompDict` | src/main.rs:40-41 | `is_comp_dict` aborts exactly when the frame is a proper prefix of `28 B5 2F FD`, and holds exactly when the frame starts with those four bytes |
| `Container.Classify` | src/main.rs:38-41 | the tests abort exactly on a signature prefix; otherwise the kind is raw exactly when the first four bytes are `37 A4 30 EC`, compressed exactly when they are `28 B5 2F FD`, and unrecognised in every other case, short frames included, so the two tests never both succeed |
| `Container.ParseHeader` | src/main.rs:26-32 | the header reads succeed exactly when the file has 8 bytes; the magic is bytes 0..4, and the size is the `i32` whose little-endian encoding is bytes 4..8 |
| `Container.ResolveDictionary` | src/main.rs:38-67 | resolution succeeds exactly when the frame is not a signature prefix and a compressed frame decodes to at least 4 bytes; the dictionary is the frame itself unless the frame is compressed, and then it is the frame's decompression |
| `Container.DictionaryFrom` | src/main.rs:35-36 | a negative size and a size beyond the remaining bytes fail with their own errors; on success the frame is exactly the first `size` remaining bytes |
| `Container.Open` | src/main.rs:26-67 | on success the file holds 8 + size bytes, the magic is bytes 0..4, the size is the `i32` of bytes 4..8, and the dictionary frame is exactly bytes 8..8+size |
| `Container.ReadHeader` | src/main.rs:26-32 | the two reads return what `ParseHeader` returns: the magic is bytes 0..4, the size is the `i32` of bytes 4..8, and the position is 8 after them |
| `Container.ReadDictionary` | src/main.rs:35-67 | returns what `DictionaryFrom` gives for the remaining bytes, and says where the position ends for a negative, fitting or overlong size |
| `Container.OpenContainer` | src/main.rs:22-69 | fails exactly when `Open` fails, with the same error; on success hands over `Open`'s dictionary and a reader over the whole file at position 0 |
| `Container.OpenSucceedsIff` | src/main.rs:26-67 | the open succeeds exactly when the file has 8 header bytes and a non-negative declared size that fits, the frame is not a signature prefix, and a compressed frame decodes to at least 4 bytes |
| `Container.OpenDictionary` | src/main.rs:38-58 | the dictionary is the frame unchanged unless the frame starts with the Zstandard frame magic, including when its signature is unrecognised or the frame is shorter than 4 bytes; a compressed frame is replaced wholesale by its decompression |
| `Container.OpenFailures` | src/main.rs:27-66 | a short magic, a short size, a negative size, an overlong size, a frame that is a signature prefix, an undecodable compressed frame and a decoded dictionary under 4 bytes each give their own error, checked in that order |
| `Container.OpenIgnoresMagic` | src/main.rs:26-29 | replacing the magic by any four bytes changes nothing in the outcome except the recorded magic |
| `Container.OpenIgnoresPayload` | src/main.rs:35-36 | nothing past the dictionary frame affects a successful open |
| `Container.OpenBuiltContainer` | src/main.rs:26-41 | a container written as magic, size, frame and payload opens with the container magic, the frame's length and the frame's resolved dictionary |
| `Container.RawAndCompressedAgree` | src/main.rs:47-58 | a raw dictionary and a compressed frame that decompresses to it open to byte-identical dictionaries |
| `Container.NegativeSizeRejected` | src/main.rs:32-35 | a size field of `FF FF FF FF` is -1 and is refused before any dictionary is read |
| `Container.MinimalRawDictionary` | src/main.rs:35-41 | size 4 with the frame `37 A4 30 EC` opens with that frame as a raw dictionary |
| `Container.EmptyDictionaryRejected` | src/main.rs:35-39 | a declared size of 0 fails at the first byte of the signature test |
| `Container.ShortUnrecognizedFrameAccepted` | src/main.rs:38-41 | a one-byte frame `00` passes both tests unmatched and becomes the dictionary as it is |
| `Container.ShortSignaturePrefixRejected` | src/main.rs:38-41 | a one-byte frame `28` makes the second test index past its end, so the open fails |
| `Records.FirstIncomplete` | src/main.rs:78-83 | every item before the result is a record with a readable body, and the item at the result, if any, is not |
| `Records.Counted` | src/main.rs:75-90 | the count is the number of items when the stream is consumed to its end, the index of the failing item after a header failure, and that index plus one after a body failure, since the record was counted before its body was read; every counted item is a record whose headers parsed |
| `Records.StopOf` | src/main.rs:78-90 | the stream is consumed to its end exactly when every item is complete; otherwise the stop names the FIRST incomplete item, a header failure or a body failure, and every item before it is complete |
| `Records.CountRecords` | src/main.rs:75-92 | the loop's `count` is `Counted` and its stop is `StopOf` of the items; `skipped` is 0 and at most `count` |
| `Records.CountedBounds` | src/main.rs:75-90 | the count never exceeds the number of items; the stream is consumed to its end exactly when every item is complete, and then every item is counted |
| `Records.CountedIsOkBeforeFirstError` | src/main.rs:78-80 | when every body reads, the count is the number of records before the first error, and the loop stops at that error or at the end |
| `Records.StopsAtFirstFailure` | src/main.rs:78-83 | after the first failing item, further items change neither the count nor the stop |
| `Records.CompletePrefixAdds` | src/main.rs:78-90 | complete records ahead of a stream add one each to its count |
| `Warctest.Pipeline` | src/main.rs:22-92 | the run fails with `Open`'s error exactly when the open fails, and with `DecoderRejected` exactly when the open succeeds and the decoder rejects the whole file with the resolved dictionary; a run that got past both skipped none |
| `Warctest.RunWarctest` | src/main.rs:22-92 | the run's outcome is `Pipeline`'s, in which the decoder reads the entire file and not only the bytes after the dictionary frame |
| `Warctest.PipelineReport` | src/main.rs:69-92 | a run that got past the open and the decoder has the count and stop of the loop over the items the decoder produced from the whole file and the resolved dictionary, a count at most their number, and no skipped record |
| `Warctest.RawContainerCountsEveryRecord` | src/main.rs:22-92 | for a container with a raw dictionary whose records all read, every record is counted and the run reaches the end of the stream |
| `Warctest.TruncatedSecondBody` | src/main.rs:78-83 | two records with the second body cut short give a count of 2 and a body failure at the second |

## Left out

- Zstandard decompression is not modelled. Two ways of calling it come in as function
  parameters: `Decompressor` for the plain decoding of a compressed dictionary (lines 53-58),
  and `RecordDecoder` for `zstd::Decoder::with_dictionary` together with the WARC reader
  (lines 70-77). The model does not distinguish a failure of `Decoder::new` from one of
  `read_to_end`: both are `DictDecodeFailed`.
- WARC record parsing (`WarcReader`, `stream_records`, `header(TargetURI)`, `into_buffered`)
  belongs to the `warc` crate. Its records are abstract `Item`s. The `TargetURI` lookup is not
  modelled, because its only `match` arm ignores the result.
- File opening, the hardcoded path (line 23) and every `println!` (including the UTF-8 lossy
  conversion at line 86) are I/O and diagnostics. The input file is the `input` parameter.
  The one effect of a print that the model keeps is the out-of-bounds index at lines 63-66.
- `Reader.ByteReader.ReadExact`: on a short read, the Rust buffer's contents are unspecified.
  The model leaves the buffer unchanged, which no caller observes, since the program aborts
  right after.
- `Records.CountRecords`: `count` and `skipped` are Rust `i32`s (they have no annotation and
  default to `i32`); the model counts in unbounded integers, so it does not capture the
  overflow of `count += 1` after 2^31 - 1 records, a panic in a debug build and a wrap-around
  in a release build. Archives of that many records are far beyond the files the program reads.
- `Reader.ByteReader.Rewind`: on a regular file, seeking to offset 0 does not fail, so I/O
  errors from `rewind`, and the `expect` on it at line 69, are not modelled.
- Allocation failure of `vec![0u8; dictsize]` for a large non-negative size is not modelled;
  such a size that does not fit in the file fails as `DictTruncated`.
- `main` (lines 132-177) is not part of this model: the tantivy schema, index writer, commit,
  reader and query belong to an external search library. The commented-out code at lines
  93-129 is dead code.
