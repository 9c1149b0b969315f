# Verified model of hdbconnect's data paths

hdbconnect is a Rust client for the SAP HANA database. This project models, in Dafny, the parts of it that
compute something non-trivial without a live server, and proves what they promise:

* **LOB streaming.** `LobWriter` takes a UTF-8 stream in arbitrary byte slices, cuts each at a character boundary,
  transcodes to CESU-8 and sends chunks. `CLobHandle` and `NCLobHandle` fetch CESU-8 in arbitrary chunks and hand
  out clean UTF-8 for any reader buffer; `BLobHandle` does the same without transcoding; `read_slice` separates
  whole characters from the pieces at both ends of a slice.
* **Decimals.** The 16-byte DECIMAL format and the fixed-width formats.
* **Dates.** The Julian/Gregorian conversion behind `DayDate`, `LongDate` and `SecondDate`.
* **Requests.** The size pass and the emit pass over nested parts, and the wire forms of values, options and
  authentication fields.
* **Result sets and batch errors.** The lazily filled row queue, and the mixing of server errors into results.

## How it is built

| file | component |
|---|---|
| `Wrappers.dfy` | `Option`, `Result`, writing into a caller's buffer |
| `Unicode.dfy` | UTF-8 (section 3 of RFC 3629) and CESU-8 (Unicode Technical Report #26), encoders, decoders, prefixes |
| `Cesu8Util.dfy` | the CESU-8 helpers of `src/protocol/util.rs` |
| `LobWriter.dfy` | the streaming writer |
| `LobServer.dfy` | the server side of LOB reading |
| `CharLob.dfy`, `CLob.dfy`, `NCLob.dfy`, `BLob.dfy` | the streaming readers |
| `LobSlice.dfy` | `read_slice` |
| `LobEndToEnd.dfy` | writing, storing and reading back |
| `Numbers.dfy`, `LittleEndian.dfy` | arithmetic and byte order |
| `HdbDecimal.dfy`, `FixedDecimal.dfy` | decimals |
| `Calendar.dfy`, `Dates.dfy` | the calendar as reference, and the conversion |
| `HdbValue.dfy`, `Options.dfy`, `AuthFields.dfy`, `Request.dfy` | requests |
| `RequestReader.dfy` | what the receiver of a request reads |
| `ResultSet.dfy`, `Reply.dfy` | result sets, errors in replies |

Objects that the code updates in place are classes (`LobWriter`, the LOB handles, `RsState`, `ConnectionCore`); loops
are methods with loops, proved against functions or against the property itself; the rest is functions and lemmas.
A `VecDeque` or `Vec` that is mutated is a field of type `seq`; the caller's read buffer is an `array`. A reader
object carries a ghost field `rest`, the text that was not yet delivered: every read is shown to deliver a part of it
that depends on `rest` and the buffer size only.

`cesu8::to_cesu8`, `cesu8::from_cesu8` and `String::from_utf8` are taken to be the reference functions of
`Unicode.dfy`. A panic of the code (an `unwrap` on an error, an index out of range, `unreachable!`) is the outcome
`Err(Panic)`. The network is a parameter: whether the server accepts a write, how long its replies are, which packets
it sends. The receiver of a request is a reader that knows the type codes, part kinds and wire formats and nothing of how
the message was made. The server side of a LOB is fixed content that answers an offset and a length with a slice and a last-data
flag; replies may be shorter than asked for, at any offset and by any amount, as long as they are not empty.

## What turned out

Some things hold only under a condition, which is part of the statements:

* A lone lead byte of a three-byte sequence has no cut-off point: `get_cesu8_tail_len` fails on it, and
  `get_utf8_tail_len` on a lone lead of a three- or four-byte character. These are the only prefixes of well-formed
  text where they fail (`Cesu8Util.TailLenIsBoundaryDistance`, `LobWriter.TailLenIsBoundaryDistance`).
* A character LOB `read` returns 0 before the end exactly if the next character, in its CESU-8 form, is longer than
  the buffer (`CharLob.EmptyReadMeansEnd`, `CharLob.FiveBytesCanBeTooFew`).
* `(total - acc) as u32` drops the upper bits, so some number of fetches completes a LOB exactly if less than 2^32 units
  are left (`LobServer.CompletedIff`, `LobServer.FourGigaIsNeverPassed`).
* Below that, a fetch of a BLOB or NCLOB cannot fail. A CLOB is loaded unless the first fetch stalls: nothing is
  buffered, the next character takes three or more bytes, and the read length is 1 or the reply is cut down to one byte
  (`CLob.CLobHandle.StallsIff`, `CLob.CLobHandle.LoadComplete`, `CLob.CLobHandle.IntoString`, `CLob.CLobHandle.Read`,
  `CLob.SingleBytesStall`).
* `max_buf_len` is documented not to exceed the read length plus the reader's buffer for a CLOB, and three times the
  read length plus the reader's buffer for an NCLOB. It starts with the length of the first chunk, which comes along with
  the row; if that is beyond the bound, the value is from the start. Otherwise, below 2^32 units, no number of reads
  gets it beyond the bound, whatever the chunking, exactly for the texts in which no character takes three or more bytes
  (CLOB) or a surrogate pair (NCLOB) (`CLob.DocumentedBoundHoldsIff`, `NCLob.DocumentedBoundHoldsIff`). For every other
  text there is a first chunk within the bound after which one read exceeds it (`CLob.LongCharExceedsBound`,
  `NCLob.PairExceedsBound`), by at most 4 and 2 bytes (`CLob.CLobHandle.Read`, `NCLob.NCLobHandle.Read`).
* With a `lob_write_length` of 0 or 1, `write` fails also on well-formed input: exactly if a piece brings the first byte
  of a character of three or four, and nothing else, behind a character boundary (`LobEndToEnd.Store`).
* `split_off_orphaned_bytes` panics on some slices of up to six bytes and on none of seven or more. It splits a slice
  exactly if it goes on behind its first character boundary and what follows is no lone lead, or if it ends there and
  has at least three bytes (`LobSlice.SplitsExactlyWhen`, `LobSlice.LongSlicesSplit`). `read_slice` of an NCLOB panics
  exactly if the reply is empty (`LobSlice.ReadNclobSlice`).
* The header comment of `hdb_decimal.rs` documents 113 bits of mantissa; the exponent is written over the highest one,
  so a number comes back exactly if its digits without trailing zeros fit 112 bits (`HdbDecimal.RoundTrip`,
  `HdbDecimal.BitLost`). The mantissa is meant to be no multiple of ten; it is one exactly if digits must be cut off to
  get below 2^113 and the last one that is kept is a zero (`HdbDecimal.TrailingZeroAfterCut`).
* A FIXED12 value beyond 96 bits is written with more than 12 bytes, and an authentication field over 250 bytes with
  two bytes more than its size says. A row, a part or a message has the announced length exactly if it contains
  neither; otherwise it is longer, and the length fields are wrong (`HdbValue.SizeAgrees`, `HdbValue.RowSize`,
  `AuthFields.SizeAgrees`, `Request.BodySizeAgrees`, `Request.Emit`).
* Length fields are signed: values from 2^31 bytes on, and option strings from 32768 bytes on, do not come back
  (`HdbValue.OverlongIsLost`, `Options.ValueRoundTrip`).
* An iteration over a result set stops at the first packet without rows, so it hands out all rows exactly if no row
  follows that packet (`ResultSet.Collect`, `ResultSet.EarlyEnd`), and `into_single_row` refuses a single row as long
  as packets are outstanding (`ResultSet.RsState.IntoSingleRow`).
* Before 1 January 1, that is for negative raw values, the remainders of the time of day are negative, and the cast to
  `u32` makes a huge field of the first that is not zero (`Dates.AsYmdHms`).
* With several errors and no execution results, `handle_db_error` reaches its `unreachable!`.

## Model

| member | source | states |
|---|---|---|
| Unicode.DecodeEncode | src/protocol/util.rs:35-37 | decoding inverts encoding, for UTF-8 and CESU-8 and every text; what `Decode` accepts is the encoding of its result |
| Unicode.EncodeCancel | src/types_impl/lob/lob_writer.rs:230-237 | encoded text can be cancelled from the front of encoded text, so a stream can be cut and resumed at any character boundary |
| Unicode.PrefixShape | src/types_impl/lob/clob.rs:144-149 | any byte prefix of encoded text is the whole characters that fit, followed by a proper part of the next one |
| Unicode.Cesu8IsEncodedUtf16 | src/types_impl/lob/nclob.rs:162-164 | CESU-8 is the sequence-wise encoding of UTF-16, so 1-2-3-byte sequences are code units |
| Unicode.Cesu8Length | src/protocol/util.rs:39-42 | the CESU-8 form is longer than the UTF-8 form by two bytes per surrogate pair, never shorter, and at most half as long again |
| Unicode.BitDistribution | src/protocol/util.rs:177-188 | the payload bits of the bytes of a character, and those of a surrogate pair, are its number |
| Cesu8Util.GetCesu8TailLen | src/protocol/util.rs:56-88 | the backward scan with early return computes `TailLen` |
| Cesu8Util.TailLenIsBoundaryDistance | src/protocol/util.rs:54-88 | on every prefix of well-formed CESU-8 the tail length is the distance to the last character boundary, at most 5; the only error is a lone three-byte lead |
| Cesu8Util.TailInChar | src/protocol/util.rs:66-83 | a started character is cut off as a whole, also when the first half of its surrogate pair is complete |
| Cesu8Util.LengthInCesu8 | src/protocol/util.rs:43-52 | counting lead bytes of four gives exactly the length of the CESU-8 form |
| Cesu8Util.StringFromCesu8IsDecoding | src/protocol/util.rs:35-37 | trying UTF-8 first never changes the result for well-formed CESU-8 |
| Cesu8Util.StringFromCesu8Iff | src/protocol/util.rs:35-37 | exactly the encodings of a text in either form are accepted as that text |
| LobWriter.GetUtf8TailLen | src/types_impl/lob/lob_writer.rs:239-265 | the search loop computes `TailLen` |
| LobWriter.TailLenIsBoundaryDistance | src/types_impl/lob/lob_writer.rs:239-294 | on every prefix of well-formed UTF-8 the tail length is the distance to the last character boundary, at most 3; the only error is a lone lead of three or four |
| LobWriter.Utf8ToCesu8AndUtf8Tail | src/types_impl/lob/lob_writer.rs:230-237 | the result is the CESU-8 form of whole text and the bytes cut off, together the input |
| LobWriter.CuttableInWellFormed | src/types_impl/lob/lob_writer.rs:230-237 | bytes that continue to well-formed UTF-8 can be cut exactly if they are no lone lead; nothing is left over at the end |
| LobWriter.StoredIsCesu8 | src/types_impl/lob/lob_writer.rs:184-194 | requests that are well-formed each concatenate to the CESU-8 form of all the text |
| LobWriter.LobWriter.Write | src/types_impl/lob/lob_writer.rs:167-197 | sent payloads and buffer account for all input, every Append payload is well-formed CESU-8, and exactly when it fails |
| LobWriter.LobWriter.Flush | src/types_impl/lob/lob_writer.rs:199-221 | succeeds exactly if the whole input is well-formed (and the server accepts); then the server holds the transcoded input |
| LobWriter.FlushDecides | src/types_impl/lob/lob_writer.rs:204-211 | the buffered rest ends on a character boundary exactly if everything written is well-formed |
| LobServer.FetchALobChunk | src/types_impl/lob/fetch.rs:7-45 | a reply is the slice of the content that starts at the client's 0-based offset, with the right last-data flag |
| LobServer.ReadLength | src/types_impl/lob/clob.rs:234-237 | below 2^32 remaining units, the minimum of the read length and what remains; never more than either |
| LobServer.FourGigaIsNeverPassed | src/types_impl/lob/clob.rs:234-237 | with 2^32 or more units to go, no number of fetches gets below 2^32, whatever the read lengths and replies |
| LobServer.CompletedIff | src/types_impl/lob/clob.rs:229-273 | some number of fetches completes a LOB exactly if less than 2^32 units are left |
| CharLob.DrainText | src/types_impl/lob/clob.rs:297-312 | draining, cutting and pushing back delivers the whole characters among the drained bytes and keeps all others |
| CharLob.DrainKeepsTail | src/types_impl/lob/clob.rs:292-309 | after a drain the stored tail length is still the true one, and can be subtracted from the buffer length |
| CharLob.DrainTakesWhatFits | src/types_impl/lob/clob.rs:297-301 | what is delivered depends on the undelivered text and the buffer size only, and fits the caller's buffer as UTF-8 |
| CharLob.EmptyReadMeansEnd | src/types_impl/lob/clob.rs:289-313 | nothing is delivered exactly at the end or if the next character does not fit; with six bytes it fits |
| CharLob.FiveBytesCanBeTooFew | src/types_impl/lob/clob.rs:297-303 | a character for which a read into five bytes returns 0 |
| CLob.CLobHandle.New | src/types_impl/lob/clob.rs:165-206 | a handle on the whole text; fails exactly if the first chunk is a lone lead |
| CLob.CLobHandle.FetchNextChunk | src/types_impl/lob/clob.rs:229-265 | the buffer continues the content without gap or overlap, the code's own assertion holds, and exactly when it fails |
| CLob.CLobHandle.LoadComplete | src/types_impl/lob/clob.rs:267-273 | terminates below 2^32 bytes with a positive read length, and loads everything unless the first fetch stalls, in which case it fails |
| CLob.CLobHandle.IntoString | src/types_impl/lob/clob.rs:280-284 | exactly the text that was not yet read; fails exactly if the first fetch stalls |
| CLob.CLobHandle.Read | src/types_impl/lob/clob.rs:288-314 | delivers as UTF-8 the undelivered characters that fit, whatever the chunking; fails exactly if the first fetch stalls or a one-byte buffer meets a longer character; keeps the invariant; exactly how long the internal buffer got, and at most read length plus buffer size plus 4 |
| CLob.CLobHandle.StallsIff | src/types_impl/lob/clob.rs:229-257 | a fetch stalls exactly in front of a character of three or more bytes, with nothing buffered and a read length of 1 or a reply of one byte |
| CLob.SingleBytesStall | src/types_impl/lob/clob.rs:229-257 | the euro sign, answered byte by byte: a read fails for every read length and buffer |
| CLob.ReadTimes | src/types_impl/lob/clob.rs:275-314 | the value of `max_buf_len` after any number of reads is `MaxBufLenAfter`, which follows first chunk and fetches |
| CLob.PeakIsBounded | src/types_impl/lob/clob.rs:289-295 | the most that one read buffers, at whatever point and with whatever chunking, is read length plus buffer size plus 4, and without longer characters read length plus buffer size |
| CLob.DocumentedBoundHoldsIff | src/types_impl/lob/clob.rs:115-123 | whatever the server, first chunk, read length, buffer size and number of reads, `max_buf_len` is within the documented bound exactly if the first chunk is: this holds if and only if no character of the text takes three or more bytes |
| CLob.LongCharExceedsBound | src/types_impl/lob/clob.rs:115-123 | for every text with a longer character, a first chunk within the bound and one read after which `max_buf_len` exceeds it |
| NCLob.SequenceStartsOfUnits | src/types_impl/lob/nclob.rs:339-347 | the count of sequence starts is the number of UTF-16 code units |
| NCLob.SequenceStartsConcat | src/types_impl/lob/nclob.rs:270-271 | counts of consecutive chunks add up |
| NCLob.UnitCutTail | src/types_impl/lob/nclob.rs:162-164 | content cut between sequences ends in a whole character or in half a surrogate pair, and is no lone lead |
| NCLob.NCLobHandle.constructor | src/types_impl/lob/nclob.rs:181-225 | a handle on the whole text, with the code units of the first chunk counted |
| NCLob.NCLobHandle.FetchNextChunk | src/types_impl/lob/nclob.rs:252-288 | requests neither overlap nor skip content, both counters are exact, and it fails only when already complete |
| NCLob.NCLobHandle.LoadComplete | src/types_impl/lob/nclob.rs:290-296 | always succeeds below 2^32 code units |
| NCLob.NCLobHandle.IntoString | src/types_impl/lob/nclob.rs:303-307 | exactly the text that was not yet read, without failure |
| NCLob.NCLobHandle.Read | src/types_impl/lob/nclob.rs:311-337 | as for CLOB, fails only for a one-byte buffer before a longer character, exactly how long the internal buffer got, and at most three read lengths plus buffer size plus 2 |
| NCLob.ReadTimes | src/types_impl/lob/nclob.rs:298-337 | the value of `max_buf_len` after any number of reads is `MaxBufLenAfter`, which follows first chunk and fetches |
| NCLob.PeakIsBounded | src/types_impl/lob/nclob.rs:312-318 | the most that one read buffers is three read lengths plus buffer size plus 2, and without surrogate pairs three read lengths plus buffer size |
| NCLob.DocumentedBoundHoldsIff | src/types_impl/lob/nclob.rs:130-138 | the same with three read lengths plus buffer size, if and only if no character of the text takes a surrogate pair |
| NCLob.PairExceedsBound | src/types_impl/lob/nclob.rs:130-138 | for every text with a surrogate pair, a first chunk within the bound and one read after which `max_buf_len` exceeds it |
| BLob.BLobHandle.FetchNextChunk | src/types_impl/lob/blob.rs:205-238 | the buffer continues the content, and the code's own assertion holds |
| BLob.BLobHandle.LoadComplete | src/types_impl/lob/blob.rs:240-246 | everything that was not yet read is loaded |
| BLob.BLobHandle.Read | src/types_impl/lob/blob.rs:261-285 | a full buffer of the next bytes, less only at the end; bounds the internal buffer by read length plus buffer size minus 1 |
| LobEndToEnd.Store | src/types_impl/lob/lob_writer.rs:165-222 | any split into writes stores the transcoded input; if the server accepts, it fails exactly on input that is not well-formed and, for write lengths 0 and 1, on a lead byte that is sent alone |
| LobEndToEnd.ClobRoundTrip | src/types_impl/lob/clob.rs:288-314 | write in any pieces, read with any chunking and any buffers of at least 6 bytes: the bytes read up to the first 0 are the bytes written, and with replies and read lengths of at least 2 it fails exactly if writing does |
| LobEndToEnd.NclobRoundTrip | src/types_impl/lob/nclob.rs:311-337 | the same for NCLOB, where reading never fails |
| LobEndToEnd.BlobRoundTrip | src/types_impl/lob/blob.rs:261-285 | the same for BLOB and any bytes |
| LobSlice.SplitOffOrphanedBytes | src/protocol/util.rs:117-151 | the forward scan and the cut compute `SplitBytes` |
| LobSlice.SplitsExactlyWhen | src/protocol/util.rs:113-151 | exactly which slices of well-formed CESU-8 split; they split into a prefix and a postfix of at most 5 bytes and all whole characters between, losing nothing |
| LobSlice.LongSlicesSplit | src/protocol/util.rs:113-151 | every slice of at least 7 bytes splits |
| LobSlice.ReadClobSlice | src/types_impl/lob/clob.rs:208-218 | a slice of a CLOB at any byte offset and length: exactly when it panics, and the pieces of what the server sent |
| LobSlice.SplitsAtCharacters | src/protocol/util.rs:117-151 | a slice with something behind the first boundary splits exactly if that is no lone lead, and into which pieces |
| LobSlice.RestOfCharAlone | src/protocol/util.rs:117-140 | the rest of one character alone splits exactly if it contains the second half of a surrogate pair |
| LobSlice.InsideOfChar | src/protocol/util.rs:117-140 | a slice from inside one character always panics |
| LobSlice.UnitSlicesSplitWell | src/protocol/util.rs:90-169 | every non-empty slice cut between sequences splits into pieces of 0 or 3 bytes and all whole characters between |
| LobSlice.SplitOffOrphanedSurrogates | src/protocol/util.rs:90-111 | non-empty units of a text are split into a half, the whole characters and a half, and nothing is lost; with its error cases for all other bytes |
| LobSlice.ReadNclobSlice | src/types_impl/lob/nclob.rs:227-237 | a slice of an NCLOB at any unit offset and length: panics exactly if the reply is empty, else the pieces of what the server sent |
| LobSlice.StringAndTailOfPrefix | src/protocol/util.rs:171-175 | on a prefix of well-formed CESU-8 the text is the whole characters and the tail the rest, unless it is a lone lead |
| HdbDecimal.TooManyBitsMeans | src/types_impl/hdb_decimal.rs:65-70 | the test on the magnitude bytes is a test for more than 113 bits |
| HdbDecimal.StripTensIsExact | src/types_impl/hdb_decimal.rs:59-63 | the first loop strips exactly the trailing zeros and keeps the value |
| HdbDecimal.CutDigitsLoss | src/types_impl/hdb_decimal.rs:65-75 | the second loop ends below 2^113, cuts towards zero, loses less than one unit of the last kept digit, and cuts the least number of digits that gets there |
| HdbDecimal.CutByIsUnique | src/types_impl/hdb_decimal.rs:65-75 | that number is determined by the magnitude alone |
| HdbDecimal.FromBigdecimal | src/types_impl/hdb_decimal.rs:53-100 | accepted exactly if the exponent of the cut digits, from the negated one of the number on, is from -6143 to 6144; what is read back from the 16 bytes has the sign, the exponent and the digits modulo 2^112, and is the same number exactly if the digits without trailing zeros fit 112 bits |
| HdbDecimal.ElementsMean | src/types_impl/hdb_decimal.rs:8-15 | for all 16 bytes: as one little-endian number they are mantissa, biased exponent times 2^113 and sign times 2^127 |
| HdbDecimal.NullPattern | src/types_impl/hdb_decimal.rs:36-36 | NULL is exactly the pattern of fifteen zeros and 112 |
| HdbDecimal.UnpackPacked | src/types_impl/hdb_decimal.rs:87-126 | unpacking gives back sign, exponent and the mantissa modulo 2^112; no encoded number is the NULL pattern |
| HdbDecimal.RoundTrip | src/types_impl/hdb_decimal.rs:109-126 | a number read back is the number encoded exactly if its stripped mantissa has at most 112 bits |
| HdbDecimal.BitLost | src/types_impl/hdb_decimal.rs:93-94 | 2^112 + 1 is accepted and read back as 1 |
| HdbDecimal.TrailingZeroAfterCut | src/types_impl/hdb_decimal.rs:15-16 | for a number given by its digits without trailing zeros: the mantissa sent is a multiple of ten exactly if digits must be cut and the last one that is kept is a zero |
| HdbDecimal.TrailingZeroExample | src/types_impl/hdb_decimal.rs:65-75 | 2 * 10^34 + 1 is such a number |
| FixedDecimal.EmitFixed12 | src/types_impl/decimal.rs:85-105 | exactly the signed 96-bit values take 12 bytes; all values, also longer ones, decode to the value |
| FixedDecimal.EmitFixed | src/types_impl/decimal.rs:75-84 | FIXED8 and FIXED16: refused exactly if out of range, else the bytes decode to the value |
| LittleEndian.SignedRoundTrip | src/types_impl/decimal.rs:22-48 | reading a signed little-endian integer inverts writing it |
| LittleEndian.SignExtension | src/types_impl/decimal.rs:93-103 | the filler byte chosen by the highest bit is the next byte of the two's complement |
| Dates.DayNumberOfAsYmd | src/types_impl/daydate.rs:44-77 | for every raw day the result is a valid date with Julian day number raw - 1 + 1721424 |
| Dates.AsYmdIsNthDay | src/types_impl/daydate.rs:44-77 | the formulas agree with counting days one by one, from 1 January 1, over the switch in October 1582 |
| Dates.AsYmdIsUniqueAndIncreasing | src/types_impl/daydate.rs:44-77 | no other valid date has that number, later days are later dates, and the next day is the next date |
| Dates.EarlyDay | src/types_impl/daydate.rs:44-77 | before year 1 the result is the Julian date of that day, with the years counted -1, -2 and so on |
| Dates.Range | src/types_impl/daydate.rs:5-8 | the first and the last date; all three NULL markers stand for the day after 9999-12-31 |
| Dates.CenturyMatches | src/types_impl/daydate.rs:51-57 | the century correction belongs to the century of the resulting March year, and 29 February comes only in leap years |
| Dates.AsYmdHms | src/types_impl/longdate.rs:53-96 | LongDate and SecondDate: the date is that of the same day and the fields add up to raw - 1, in seconds or ticks of 100 ns; the time fields are in range exactly for non-negative raw values and whole days; a SecondDate has no fraction |
| Dates.Clocks | src/types_impl/longdate.rs:7-10 | a day has 24 hours, an hour 60 minutes, a minute 60 seconds, a second 10^7 ticks or none |
| HdbValue.BinaryLengthAgrees | src/protocol/parts/hdb_value.rs:595-625 | the announced length of a length-prefixed value is the number of bytes written |
| HdbValue.LengthIndicator | src/protocol/parts/hdb_value.rs:607-627 | one length byte up to 245 bytes, 246 and two bytes up to 32767, 247 and four bytes beyond |
| HdbValue.LengthAndBytesRoundTrip | src/protocol/parts/hdb_value.rs:576-625 | below 2^31 bytes parsing gives back the value, consumes exactly its bytes, and never sees NULL |
| HdbValue.OverlongIsLost | src/protocol/parts/hdb_value.rs:618-621 | from 2^31 bytes on another number of bytes is taken for the value |
| HdbValue.SizeAgrees | src/protocol/parts/hdb_value.rs:148-250 | a value that can be sent is never shorter than its computed size, and has it except exactly for FIXED12 beyond 96 bits |
| HdbValue.EmitSucceedsIff | src/protocol/parts/hdb_value.rs:94-256 | exactly which values can be sent for which type, and which have a size |
| HdbValue.ValueIsRead | src/protocol/parts/hdb_value.rs:148-211 | a reader that goes by the type code finds the right code and the value, and takes exactly its bytes, whatever follows, if and only if it is no FIXED12 beyond 96 bits and no string from 2^31 bytes on |
| HdbValue.RowEmit | src/protocol/parts/parameter_rows.rs:109-127 | can be sent exactly if there is a descriptor for each value and each value can be sent; a reader of values then finds all of them in order, and nothing else |
| HdbValue.RowIsRead | src/protocol/parts/parameter_rows.rs:109-127 | the same, whatever follows the row |
| HdbValue.RowSize | src/protocol/parts/parameter_rows.rs:93-107 | fails exactly if a descriptor or a size is missing; the length of what the emit pass writes exactly if the row is well-sized, and less if not |
| Options.ValueRoundTrip | src/protocol/parts/option_value.rs:16-92 | an option value comes back, and exactly its bytes are consumed, if and only if no string is longer than 32767 bytes |
| Options.ValueLayout | src/protocol/parts/option_value.rs:16-29 | type code, then number or flag, or a two-byte length and the bytes |
| Options.ValueSizeAgrees | src/protocol/parts/option_value.rs:30-38 | the size of an option value is the number of bytes written |
| Options.OverlongIsLost | src/protocol/parts/option_value.rs:78-92 | of strings from 32768 bytes on, another number of bytes comes back |
| Options.Emit | src/protocol/parts/option_part.rs:55-61 | the loop writes the entries in the order of iteration |
| Options.Size | src/protocol/parts/option_part.rs:39-45 | the size loop gives the number of bytes that are written, whatever the orders of the two iterations |
| Options.Parse | src/protocol/parts/option_part.rs:63-72 | the loop fills the map entry by entry |
| Options.RoundTrip | src/protocol/parts/option_part.rs:55-72 | in whatever order the map is iterated, parsing restores it and consumes exactly its bytes |
| AuthFields.Emit | src/protocol/parts/authfields.rs:31-39 | the loop writes the count and the fields, or an error |
| AuthFields.Size | src/protocol/parts/authfields.rs:23-29 | the loop adds up the field sizes |
| AuthFields.Parse | src/protocol/parts/authfields.rs:10-17 | the loop reads as many fields as announced |
| AuthFields.FieldRoundTrip | src/protocol/parts/authfields.rs:61-98 | fields up to 65535 bytes come back; the size is right exactly up to 250 bytes |
| AuthFields.FieldLayout | src/protocol/parts/authfields.rs:61-78 | one length byte up to 250 bytes, 255 and two bytes beyond |
| AuthFields.RoundTrip | src/protocol/parts/authfields.rs:10-39 | all fields come back, whatever follows |
| AuthFields.SizeAgrees | src/protocol/parts/authfields.rs:23-81 | the computed size is the written size exactly if no field is longer than 250 bytes |
| Request.BodySizeAgrees | src/protocol/part.rs:122-258 | size pass and emit pass agree on a part exactly if it is well-sized; if not, more is written than announced |
| Request.CountRoundTrip | src/protocol/part.rs:178-191 | the two count fields give back every count up to i32::MAX, and only these are accepted |
| Request.PaddedIsAligned | src/protocol/part.rs:405-410 | padding fills to the next multiple of 8 and no further |
| Request.PartBytesLength | src/protocol/part.rs:115-198 | a part takes its computed, padded size exactly if it is well-sized, and more if not |
| Request.PartHeaderRoundTrip | src/protocol/part.rs:390-403 | a reader of the header finds kind, no attributes, count, computed length and remainder as written, and that length is the one of the body exactly for well-sized parts; the padding is zeros |
| Request.SucceedsIff | src/protocol/part.rs:168-250 | exactly which parts can be sent |
| Request.SegSize | src/protocol/request.rs:116-125 | the loop adds up the padded part sizes |
| Request.Emit | src/protocol/request.rs:50-114 | succeeds exactly if every part can be sent; the u32 remainder never underflows and ends at 0; the message has exactly the announced length if and only if all parts are well-sized, and is longer if not; up to the first ill-sized part every part starts at a multiple of 8 and every remainder field is the number of bytes still to come |
| RequestReader.WalkFindsParts | src/protocol/part.rs:260-301 | a reader that starts behind the headers and advances by header, body length and padding visits exactly the parts, with kind, count and body, and stops at the end of the message |
| RequestReader.EntriesAreRead | src/protocol/parts/client_info.rs:58-64 | a reader of string pairs finds the entries of a client info in order |
| RequestReader.RowsAreRead | src/protocol/parts/parameter_rows.rs:30-39 | a reader of rows finds all rows in order |
| RequestReader.BodyIsRead | src/protocol/part.rs:200-250 | for every kind of part: its number, the number of arguments, and a reader of the body that gives back what the part stands for |
| RequestReader.Send | src/protocol/request.rs:50-114 | a message of well-sized parts with values in range is received: walking over it and reading each body gives back every part, in order, and nothing else |
| Request.HeaderRoundTrip | src/protocol/request.rs:67-90 | a reader finds session id, sequence number, the lengths, number and offset of segments, number of parts, request type, auto-commit and options, each in its place, and zeros elsewhere |
| RequestReader.LobRequestsRoundTrip | src/protocol/parts/write_lob_request.rs:20-35 | a reader of a read or write LOB request finds locator, offset, length, flags and data |
| ResultSet.RsState.FetchNext | src/protocol/parts/resultset.rs:102-134 | a fetch moves one packet into the buffer and leaves the queue of undelivered rows as it is |
| ResultSet.RsState.FetchAll | src/protocol/parts/resultset.rs:60-65 | fails exactly if the packet received last, or one still to come other than the last, is marked row-not-found or closed; else all packets are fetched and the queue is unchanged |
| ResultSet.RsState.TotalNumberOfRows | src/protocol/parts/resultset.rs:71-74 | counts the undelivered rows, failing as `fetch_all` does |
| ResultSet.RsState.NextRow | src/protocol/parts/resultset.rs:76-91 | takes the first row off the queue; fails exactly if nothing is buffered and the packet received last is not the last one, yet row-not-found or closed; and exactly when it reports the end |
| ResultSet.RsState.IntoSingleRow | src/protocol/parts/resultset.rs:292-301 | succeeds exactly if all packets have arrived and one row is left, and returns it |
| ResultSet.Run | src/protocol/parts/resultset.rs:60-91 | any interleaving of the calls hands out the rows once each, in server order, and does not fail without such marks |
| ResultSet.Collect | src/protocol/parts/resultset.rs:522-531 | iterating to the end hands out what is buffered and the rows before the first empty packet, and leaves the rows behind it; fails exactly at a mark before that packet |
| ResultSet.EarlyEnd | src/protocol/parts/resultset.rs:80-89 | the end is reported while rows are left exactly if nothing is buffered, the next packet is empty and rows follow it |
| Reply.MixErrors | src/protocol/reply.rs:141-160 | the k-th failure gets the k-th error, surplus errors are appended in order as failures, all else stays; the errors that come out are those that went in, in order |
| Reply.Partition | src/protocol/reply.rs:104-108 | all warnings and only these have severity Warning, and the two lists interleave to the given one |
| Reply.ConnectionCore.EvaluateParts | src/protocol/reply.rs:121-139 | the last execution results count, and a closing session aborts |
| Reply.LastResultsMeans | src/protocol/reply.rs:131-133 | the results are those of the last part that has any |
| Reply.SequenceAfterMeans | src/protocol/reply.rs:125-127 | the statement sequence is what the last statement context says |
| Reply.DeadAfterMeans | src/protocol/reply.rs:128-130 | the session is closing if the last transaction flags that say something say so |
| Reply.AbortsMeans | src/protocol/reply.rs:128-130 | evaluation aborts exactly at transaction flags after which the session is closing |
| Reply.ConnectionCore.HandleDbError | src/protocol/reply.rs:93-169 | no error exactly if the first error part has only warnings; all warnings go to the connection, all others, in order, into the outcome, with every outcome determined |

## Left out

- TCP, TLS, reconnect, pooling, URLs and connection parameters: input and output, and third-party libraries.
- SCRAM and PBKDF2 authentication: the substance is in hash libraries.
- Conversions through serde, the XA resource manager, logging, `Display`, server usage statistics, mutex poisoning.
- Tables of option ids, part kinds, reply types and type ids beyond what sizes and round trips need; `matches_value_type`.
- What an object does after one of its operations has returned an error.
- Dates.AsYmd: written over the real numbers; that binary64 rounding gives the same integers is not part of this model.
- Dates.AsYmdHms: the date part, which the code repeats in three files, is written once; overflow of `i64` in the reduction of negative values is not covered.
- HdbDecimal.FromBigdecimal: the exponent is an unbounded integer, not an `i64`; `with_scale` of the bigdecimal crate is not part of this model.
- HdbValue.SizeAgrees: for fixed-width decimals the mantissa at the column's scale is given with the value; REAL and DOUBLE are words of four and eight bytes.
- BLob.BLobHandle.Read: the two slices of the ring buffer behind `VecDeque` are one sequence.
- CLob.CLobHandle.LoadComplete: with a read length of 0 the loops of the code do not end; the methods with loops ask for a positive one.
- Request.Emit: for messages of 2^31 bytes and more, whose sizes do not fit the 32-bit fields, nothing is stated.
- ResultSet.RsState.FetchNext: a failing request is not modelled; `Drop`, which closes the result set on the server, neither.
