# MEPSAN / USC+ pump-protocol decoder and live sniffer, in Dafny

This project models the two core scripts of a reverse-engineered decoder for
the MEPSAN pump-controller protocol, as it is seen on a serial line (with
USC+ wrapper blocks mixed into the stream):

- `mepsan_decoder.py`:
  - the frame synchroniser (`extract_frames`), which drops 3-byte wrapper
    blocks `50|51 XX FA` and cuts the remaining bytes at each `03 FA` pair;
  - the heartbeat filter;
  - the shape recognisers and decoders for price tables, fueling records
    (with and without extra bytes), single prices, status, extended,
    configuration, special and multi-data frames;
  - the packed-BCD and 16-bit big-endian field decoders;
  - the classification cascade (`decode_dump`);
  - the JSON fueling report with its running increments
    (`generate_fueling_json_report`).
- `sniffer.py`:
  - the live loop: append a chunk to a byte buffer, extract and handle
    every frame, then truncate the buffer after the last `03 FA` pair, or
    to its last 500 bytes once it has grown past 1000 bytes without one;
  - `decode_and_display_frame`, which keeps a per-pump session map
    (`pump & 0x0F` to the last liters and money) and prints a
    "started" or "update" notice for fueling frames.

Bytes are the subset type `Bytes.byte`, and frames are `seq<byte>`.
Fields are plain integers and carry the raw values the source divides:
- liters are in 1/10000 L (the source's `LITERS_DIVISOR`);
- money is in 1/1000 SAR (`MONEY_DIVISOR`);
- prices are in 1/10000 SAR/L;
- the fixed unit price 2.18 is carried as 218 hundredths.

Modules follow the source's structure:
- `Bytes`: bytes and the `03 FA` terminator;
- `FieldDecoders`: BCD and 16-bit fields;
- `Framing`: `extract_frames`;
- `Classifier`: shape tests, decoders and `decode_dump`;
- `FuelingReport`: the JSON report;
- `Sniffer`: the live buffer and the session map.

`sniffer.py`'s state (the buffer and the session map) is a class,
`Sniffer.Monitor`. Its methods are proved against the functions
`Observe`, `ObserveAll`, `Extract` and `Retained`.

## Model

| member | source | states |
|---|---|---|
| FieldDecoders.Bcd3 | mepsan_decoder.py:92-105 | the decoded value is below 1000000, and it is 0 as soon as one of the three bytes has a nibble above 9 |
| FieldDecoders.DecodeBcd3 | mepsan_decoder.py:92-105 | the loop over the three bytes, with its early return of 0 for an invalid nibble, computes `Bcd3` |
| FieldDecoders.BcdToNumber | mepsan_decoder.py:85-89 | the loop that concatenates two hex digits per byte and parses them yields the decimal value, or no value when a nibble is a hex letter or the list is empty |
| FieldDecoders.StrictAgreesWithTolerant | mepsan_decoder.py:85-105 | on valid BCD the strict and the tolerant decoders agree; the strict one fails exactly where the tolerant one gives 0 |
| FieldDecoders.NibblesAreDigits | mepsan_decoder.py:95-101 | every nibble of a byte sequence is a decimal digit exactly when every byte passes the BCD test |
| FieldDecoders.DecimalValueBound | mepsan_decoder.py:102-105 | a string of n decimal digits parses to less than 10^n |
| FieldDecoders.Bcd3Positional | mepsan_decoder.py:92-105 | three valid BCD bytes are read as six decimal digits, high nibble first, weighted 10^5 down to 10^0 |
| FieldDecoders.Bcd3Examples | mepsan_decoder.py:92-105 | `12 34 56` decodes to 123456 and `FA 00 00` to 0 |
| FieldDecoders.Bcd3LeadingZeros | mepsan_decoder.py:92-105 | `00 01 23` decodes to 123 and `00 04 56` to 456 |
| FieldDecoders.EncodeBcd3 | mepsan_decoder.py:92-105 | packing a number in 6 BCD digits gives 3 bytes, the inverse partner of `Bcd3` |
| FieldDecoders.BcdRoundTrip | mepsan_decoder.py:92-105 | every number below 1000000 is recovered by decoding its 3-byte BCD encoding |
| FieldDecoders.BcdRoundTripBytes | mepsan_decoder.py:92-105 | three valid BCD bytes are recovered by encoding their decoded value |
| FieldDecoders.DecimalDigitsValue | mepsan_decoder.py:102-105 | the width-digit expansion of n below 10^width parses back to n |
| FieldDecoders.DigitsOfValue | mepsan_decoder.py:102-105 | a digit string is recovered from its value at its own width |
| FieldDecoders.NibblesOfPack | mepsan_decoder.py:95-101 | splitting packed digits into nibbles gives the digits back |
| FieldDecoders.PackOfNibbles | mepsan_decoder.py:95-101 | packing the nibbles of bytes gives the bytes back |
| FieldDecoders.Be16 | mepsan_decoder.py:67-70 | `(hi << 8) \| lo` is below 65536, with `hi` as its high byte and `lo` as its low byte |
| FieldDecoders.Be16PairsRoundTrip | mepsan_decoder.py:303-307 | for an even-length payload, re-encoding the 16-bit values gives the payload back |
| FieldDecoders.SpecialValues | mepsan_decoder.py:303-307 | the step-2 loop takes one big-endian value per complete byte pair, dropping an odd last byte |
| Framing.Scan | mepsan_decoder.py:24-44 | the synchroniser as a function of position and accumulator; no contract of its own: `ScanCovers` and `ScanFramesProper` state what it emits, and `ExtractFrames` is proved equal to it |
| Framing.Extract | mepsan_decoder.py:24-44 | the frames `extract_frames` returns; no contract of its own: `ExtractedFramesProper`, `ExtractCoversStripped` and `ExtractIsUniqueDecomposition` characterise it |
| Framing.Dropped | mepsan_decoder.py:24-44 | the partial frame left in the accumulator at the end, which `extract_frames` discards; no contract of its own: `ExtractCoversStripped` and `ExtractedFramesProper` state it is the pair-free rest of the stripped stream |
| Framing.Stripped | mepsan_decoder.py:29-34 | the stream with every `50\|51 XX FA` wrapper block removed; no contract of its own: `ExtractCoversStripped` and `LastTwoBytesKept` state how the frames cover it |
| Framing.ScanAccumulates | mepsan_decoder.py:29-42 | bytes outside wrapper blocks that complete no `03 FA` are only accumulated |
| Framing.SplitFrameScan | mepsan_decoder.py:29-42 | a frame whose `03` and `FA` are separated by a wrapper block `50\|51 XX FA` is still emitted whole, and the scan goes on after its `FA` |
| Bytes.NoTerminatorConcat | sniffer.py:166-171 | two pieces without a `03 FA` pair, joined where no `03` meets an `FA`, have none either |
| Framing.ExtractFrames | mepsan_decoder.py:24-44 | the while loop that skips wrapper blocks, accumulates bytes and emits at `03 FA` returns `Extract(s)` |
| Framing.ScanCovers | mepsan_decoder.py:24-44 | the emitted frames followed by the dropped accumulator are exactly the accumulator plus the stream with wrapper blocks removed |
| Framing.ExtractCoversStripped | mepsan_decoder.py:24-44 | no byte outside a wrapper is lost or reordered; only a trailing partial frame is dropped |
| Framing.ScanFramesProper | mepsan_decoder.py:36-40 | every emitted frame ends in `03 FA` and holds no earlier `03 FA` pair; the pending bytes hold none |
| Framing.ExtractedFramesProper | mepsan_decoder.py:36-44 | every extracted frame is at least 2 bytes long, ends in `03 FA` with no earlier pair, and the dropped tail has no pair |
| Framing.LastTwoBytesKept | mepsan_decoder.py:30-32 | fewer than three remaining bytes are never taken for a wrapper block |
| Framing.FlattenCons | mepsan_decoder.py:39 | concatenating a frame list that starts with f is f followed by the rest |
| Framing.FrameEndIsTerminator | mepsan_decoder.py:38 | a frame followed by any bytes has its `03 FA` two bytes before its end |
| Framing.ShorterFrameIsNoPrefix | mepsan_decoder.py:38 | a shorter frame is never a prefix of a longer one |
| Framing.SameFirstFrame | mepsan_decoder.py:38-40 | two streams that agree and both start with a frame start with the same frame |
| Framing.FramesOfUnique | mepsan_decoder.py:24-44 | a byte string splits in at most one way into frames plus a terminator-free rest |
| Framing.ExtractIsUniqueDecomposition | mepsan_decoder.py:24-44 | any such split of the unwrapped stream is the one `extract_frames` produces |
| Classifier.IsHeartbeat | mepsan_decoder.py:45-50 | shorter than 6 bytes, or a body of heartbeat bytes only; no contract of its own: `HeartbeatIgnoresTrailer`, `HeartbeatBytesOnly` and `NonHeartbeatShape` state it |
| Classifier.IsPriceTable | mepsan_decoder.py:53-60 | 17 bytes, `01 01 05 03` at offset 2, ending in `03 FA`; no contract of its own: `ThirdByte`, `ShapesDisjoint` and `PriceTableFields` state it |
| Classifier.IsFueling | mepsan_decoder.py:108-116 | 16 bytes, `02 08 00 00` at offset 2, ending in `03 FA`; no contract of its own: `ThirdByte`, `ShapesDisjoint` and `FuelingFields` state it |
| Classifier.IsSinglePrice | mepsan_decoder.py:155-164 | 15 bytes, `01 01`, a price type in 1, 2, 4, 5, then `03 04 00 21 80`, ending in `03 FA`; no contract of its own: `ThirdByte`, `ShapesDisjoint` and `SinglePriceGate` state it |
| Classifier.IsStatusFrame | mepsan_decoder.py:195-199 | 9 bytes, `01 01` at offset 2, ending in `03 FA`; no contract of its own: `ThirdByte`, `ShapesDisjoint` and `PayloadSlices` state it |
| Classifier.IsExtendedData | mepsan_decoder.py:217-221 | 9 or 14 bytes, `65` at offset 2, ending in `03 FA`; no contract of its own: `ThirdByte`, `ShapesDisjoint` and `PayloadSlices` state it |
| Classifier.IsConfigFrame | mepsan_decoder.py:243-248 | 12 bytes, `03 04 00 21 80` at offset 2, ending in `03 FA`; no contract of its own: `ThirdByte`, `ShapesDisjoint` and `PayloadSlices` state it |
| Classifier.IsMultiDataFrame | mepsan_decoder.py:265-269 | 12 bytes, `02 04` at offset 2, ending in `03 FA`; no contract of its own: `ThirdByte`, `ShapesDisjoint` and `PayloadSlices` state it |
| Classifier.IsSpecialDataFrame | mepsan_decoder.py:287-293 | 20 bytes, `05 0C 00 21 80` at offset 2, ending in `03 FA`; no contract of its own: `ThirdByte`, `ShapesDisjoint` and `PayloadSlices` state it |
| Classifier.IsFuelingWithExtra | mepsan_decoder.py:326-332 | 22 bytes, `02 08 00 00` at offset 2, ending in `03 FA`; no contract of its own: `ThirdByte`, `ShapesDisjoint` and `FuelingWithExtraBranches` state it |
| Classifier.DecodePriceTable | mepsan_decoder.py:63-82 | pump, grade and four big-endian prices; no contract of its own: `PriceTableFields` states the fields a price table yields |
| Classifier.DecodeFueling | mepsan_decoder.py:119-152 | pump, command and the BCD liters and money; no contract of its own: `FuelingFields` and `FuelingScenario` state them |
| Classifier.DecodeSinglePrice | mepsan_decoder.py:167-192 | the 16-bit price at bytes 10-11, rejected outside 1.0 to 10.0 SAR/L; no contract of its own: `SinglePriceGate` and `PriceNoteOnlyForSinglePrice` state when it rejects |
| Classifier.DecodeStatusFrame | mepsan_decoder.py:202-214 | pump, command and the status byte 4; no contract of its own: `PayloadSlices` states it |
| Classifier.DecodeExtendedData | mepsan_decoder.py:224-240 | pump, command, type byte 3 and the payload `frame[4:-3]`; no contract of its own: `PayloadSlices` states it |
| Classifier.DecodeConfigFrame | mepsan_decoder.py:251-262 | pump, command and the payload `frame[7:-3]`; no contract of its own: `PayloadSlices` states it |
| Classifier.DecodeMultiDataFrame | mepsan_decoder.py:272-284 | pump, command and the payload `frame[4:-3]`; no contract of its own: `PayloadSlices` states it |
| Classifier.DecodeSpecialDataFrame | mepsan_decoder.py:296-323 | the payload `frame[7:-3]` and, when it has at least 6 bytes, its 16-bit values; no contract of its own: `PayloadSlices` and `SpecialValues` state them |
| Classifier.DecodeFuelingWithExtra | mepsan_decoder.py:335-357 | the first 16 bytes decoded as a fueling frame when they pass its test, else the raw record; no contract of its own: `FuelingWithExtraBranches` and `ExtractedFuelingWithExtraIsRaw` state both branches |
| Classifier.Classify | mepsan_decoder.py:365-393 | the cascade drops a frame exactly when it is a heartbeat, otherwise yields one record |
| Classifier.NonHeartbeatShape | mepsan_decoder.py:45-50 | every recognised data shape is at least 9 bytes long, its third byte is not a heartbeat byte, and it is not a heartbeat |
| Classifier.ShapesDisjoint | mepsan_decoder.py:53-332 | no frame has two shapes (lengths and fixed bytes separate them) |
| Classifier.ThirdByte | mepsan_decoder.py:53-332 | the fixed mode bytes each shape demands at offsets 2 to 4 |
| Classifier.CascadeOrderIrrelevant | mepsan_decoder.py:365-393 | a frame with a shape is decoded by that shape's decoder whatever the order of the tests |
| Classifier.MatchedIsNotPlainUnknown | mepsan_decoder.py:365-393 | a frame that has a shape never becomes the plain unknown record |
| Classifier.UnmatchedIsUnknown | mepsan_decoder.py:390-391 | the plain unknown record comes out exactly when no shape matches |
| Classifier.SinglePriceGate | mepsan_decoder.py:167-192 | a single-price frame becomes the "invalid price" unknown record exactly when its raw price is below 10000; otherwise its fields are decoded |
| Classifier.PriceNoteOnlyForSinglePrice | mepsan_decoder.py:377-383 | the "invalid price" note appears only for single-price frames with a raw price below 10000 |
| Classifier.FuelingFields | mepsan_decoder.py:108-152 | a fueling frame decodes its pump, command, BCD liters from bytes 6-8 and money from bytes 9-11 |
| Classifier.PriceTableFields | mepsan_decoder.py:53-82 | a price table decodes four big-endian prices from bytes 7-14 |
| Classifier.PayloadSlices | mepsan_decoder.py:202-323 | the status byte a status record carries, and which bytes the extended, config, multi-data and special-data records carry |
| Classifier.FuelingWithExtraBranches | mepsan_decoder.py:326-357 | a 22-byte fueling-with-extra frame decodes its fueling head only when bytes 14-15 are `03 FA`, and otherwise yields the raw record |
| Classifier.ExtractedFuelingWithExtraIsRaw | mepsan_decoder.py:24-44 | every fueling-with-extra frame out of `extract_frames` yields the raw record, because such a frame cannot hold `03 FA` at bytes 14-15 |
| Classifier.HeartbeatIgnoresTrailer | mepsan_decoder.py:45-50 | frames of 6 or more bytes are judged without their last two bytes |
| Classifier.HeartbeatBytesOnly | mepsan_decoder.py:45-50 | a frame made only of heartbeat bytes is dropped |
| Classifier.DecodeAll | mepsan_decoder.py:366-393 | the records the cascade appends for a list of frames; no contract of its own: `OneRecordPerFrame` states one record per non-heartbeat frame, and `DecodeDump` is proved equal to it |
| Classifier.NonHeartbeats | mepsan_decoder.py:365-367 | the frames kept are frames of the input that are not heartbeats |
| Classifier.OneRecordPerFrame | mepsan_decoder.py:360-395 | one record per non-heartbeat frame, in order, each the classification of its frame |
| Classifier.DecodeDump | mepsan_decoder.py:360-395 | the dump decoder's loop yields the classification of every extracted frame |
| Classifier.FuelingScenario | mepsan_decoder.py:108-152 | a 16-byte frame `01 38 02 08 00 00 00 01 23 00 04 56`, two check bytes and `03 FA` decodes to pump 1, command 38, liters 123 and money 456, keeping the liters and money bytes |
| FuelingReport.FuelingRecords | mepsan_decoder.py:401-402 | the kept records are records of the input, of fueling type |
| FuelingReport.FuelingRecordsEmpty | mepsan_decoder.py:401-409 | no fueling record is kept exactly when the input has none |
| FuelingReport.ReportShape | mepsan_decoder.py:404-451 | there is no fueling data exactly when the input has no fueling record; otherwise one update per fueling record, numbered from 1 |
| FuelingReport.UpdateFor | mepsan_decoder.py:415-436 | the j-th update, compared with the fueling record before it; no contract of its own: `TelescopeUpTo` and `IncrementsTelescope` state how the increments add up |
| FuelingReport.ReportOf | mepsan_decoder.py:399-451 | the whole report; no contract of its own: `ReportShape` and `IncrementsTelescope` state it, and `GenerateFuelingReport` is proved equal to it |
| FuelingReport.GenerateFuelingReport | mepsan_decoder.py:399-451 | the report loop, with its running `prev_liters`/`prev_money`, builds `ReportOf` |
| FuelingReport.TelescopeUpTo | mepsan_decoder.py:411-436 | the first k increments add up to the k-th cumulative value |
| FuelingReport.IncrementsTelescope | mepsan_decoder.py:411-451 | the final totals are the last fueling record's; all liters increments add up to the final liters, and all money increments to the final money |
| FuelingReport.ThreeUpdateRecords | mepsan_decoder.py:401-402 | from fueling, status, fueling, fueling records the report keeps the three fueling ones, in order |
| FuelingReport.ThreeUpdateExample | mepsan_decoder.py:411-436 | a repeated record gives a zero increment and a non-fueling record is skipped |
| FuelingReport.PreviousSharedAcrossPumps | mepsan_decoder.py:411-436 | the previous value is shared across pumps, so a second pump's first update shows a negative increment |
| FuelingReport.RawRecordCountsAsZero | mepsan_decoder.py:401-419 | a raw fueling-with-extra record is counted, with liters, money and unit price 0 |
| Sniffer.Observe | sniffer.py:75-137 | what `decode_and_display_frame` prints and the session map it leaves; no contract of its own: `FuelingSetsOneKey`, `FuelingNotice`, `OtherFramesChangeNothing` and `FuelingWithExtraNotice` state it |
| Sniffer.ObserveAll | sniffer.py:162-163 | the frames handled one after the other; no contract of its own: `ObserveAllKeepsKeys` states it and `Monitor.Step` is proved against it |
| Sniffer.LastFrameEnd | sniffer.py:166-171 | the position found is -1 or lies between 2 and the buffer length |
| Sniffer.Retained | sniffer.py:173-178 | the buffer kept after truncation; no contract of its own: `RetainedAfterLastPair`, `RetainedWithoutPair` and `RetainedInvariants` state it |
| Sniffer.FindLastFrameEnd | sniffer.py:166-171 | the backward scan with `break` finds `LastFrameEnd` |
| Sniffer.LastFrameEndIsLast | sniffer.py:166-171 | the result is -1 exactly when the buffer has no `03 FA` pair; otherwise a pair ends there and none starts later |
| Sniffer.RetainedAfterLastPair | sniffer.py:173-175 | with a pair in the buffer, exactly the bytes after the last pair are kept |
| Sniffer.RetainedWithoutPair | sniffer.py:176-178 | without a pair, a buffer over 1000 bytes is cut to its last 500 and a shorter one is kept whole |
| Sniffer.RetainedInvariants | sniffer.py:166-178 | the kept buffer is a suffix of the extended one and holds no `03 FA` pair |
| Sniffer.LongRunKeepsLast500 | sniffer.py:176-178 | 1500 terminator-free bytes leave their last 500 |
| Sniffer.FuelingSetsOneKey | sniffer.py:108-132 | a fueling frame stores its liters and money under `pump & 0x0F` and leaves every other key as it was |
| Sniffer.FuelingNotice | sniffer.py:114-130 | an update is printed exactly for a known pump whose liters grew; a start exactly for a new pump with liters or money above 0; never an error |
| Sniffer.OtherFramesChangeNothing | sniffer.py:79-134 | heartbeats and non-fueling frames print nothing and leave the map unchanged |
| Sniffer.FuelingWithExtraNotice | sniffer.py:84-137 | a fueling-with-extra frame always prints; without `03 FA` at bytes 14-15 it prints a decode error and leaves the map unchanged |
| Sniffer.ExtractedFuelingWithExtraChangesNothing | sniffer.py:84-137 | every fueling-with-extra frame from the synchroniser ends in a decode error, with the map unchanged |
| Sniffer.ObserveAllKeepsKeys | sniffer.py:86-110 | session keys stay within 0 to 15, and one notice comes out per frame |
| Sniffer.SplitTerminatorScan | mepsan_decoder.py:24-44 | a stream starting `01 02 03 50 00 FA FA` first yields the frame `01 02 03 FA`, whatever follows |
| Sniffer.SplitTerminatorUnseen | sniffer.py:166-171 | the truncation scan finds no adjacent `03 FA` in `01 02 03 50 00 FA FA` |
| Sniffer.SplitTerminatorFrameIsHandledTwice | sniffer.py:159-178 | for the single buffer `01 02 03 50 00 FA FA` (no raw `03 FA`, under 1000 bytes): its frame `01 02 03 FA` is extracted, the buffer is kept whole, and one more byte makes the frame come out again; that frame is a heartbeat, so nothing is printed twice |
| Sniffer.SplitEnded | mepsan_decoder.py:29-40 | the raw bytes `... 03 50 00 FA FA` of a frame whose terminator is split by a wrapper block: three bytes longer, same bytes before the `FA` |
| Sniffer.SplitEndedScan | mepsan_decoder.py:29-40 | those raw bytes hold no adjacent `03 FA`, yet the synchroniser emits the whole frame from them, whatever follows |
| Sniffer.SplitPairFrames | mepsan_decoder.py:24-44 | two 16-byte frames sent that way, followed by any chunk, are the first two frames extracted |
| Sniffer.SplitPairKept | sniffer.py:166-178 | the 38 raw bytes of two such frames hold no `03 FA`, so the truncation keeps them whole |
| Sniffer.ObserveAllPrefix | sniffer.py:162-163 | handling more frames after a run never changes the notices of the run |
| Sniffer.SecondFuelingUpdates | sniffer.py:108-132 | of two fueling frames of one pump with growing liters, the second prints an update against the first, whatever the map before |
| Sniffer.SplitFuelingUpdateRepeats | sniffer.py:154-178 | two fueling frames of one pump, each with its terminator split by `50 00 FA`: the buffer is not cut after them, the next chunk re-extracts both, and the second frame's "Fueling Update" is printed again with the same values |
| Sniffer.WrapperTerminatorDropsPartialFrame | sniffer.py:159-178 | a wrapper block whose inner bytes are `03 FA` makes the truncation discard pending bytes the synchroniser is still holding |
| Sniffer.Monitor.constructor | sniffer.py:69-73 | the sniffer starts with an empty buffer and an empty session map |
| Sniffer.Monitor.DecodeAndDisplayFrame | sniffer.py:75-137 | the notice printed and the new session map are those of `Observe`; the buffer is untouched, session keys stay within 0 to 15, and the class invariant is kept |
| Sniffer.Monitor.Step | sniffer.py:154-178 | an empty chunk changes nothing; otherwise the frames of buffer plus chunk are handled in order, as `ObserveAll` says, and the buffer becomes `Retained(buffer + chunk)`; the buffer never holds a `03 FA` pair and keys stay within 0 to 15 |

## Left out

- `clean_dump`, the hex-text parsing of a dump, is not modelled: the model starts from bytes. A hex token above `FF`, which Python's `int(x, 16)` accepts, cannot arise because the byte type rules it out.
- Floating point is not modelled. The source divides the raw values by 10000 (liters and prices) and 1000 (money) and rounds them to 2 or 4 decimals; the model keeps the exact raw integers.
- Sniffer.FuelingNotice: the source rounds liters and money to 2 decimals (`decode_fueling` and `decode_fueling_with_extra`) before both print tests; the model tests the raw values. So any change that leaves the 2-decimal liters unchanged (raw liters 151 to 249, 0.0151 to 0.0249 L, say) is shown as an update here and hidden by the source; and a new pump whose liters and money both round to 0.00 (raw liters below 50 and raw money below 5) gets `Started` here and prints nothing in the source. Float rounding, with its ties, is not modelled.
- FuelingReport.UpdateFor: increments are exact raw differences; the source's `round(..., 2)` on liters, money and increments is not modelled.
- The unit price is the constant 2.18, carried as the integer 218 (hundredths). The report's top-level `unit_price_sar_per_liter`, a constant, is not a field of the model's report.
- Hex-string renderings (`frame_hex`, `liters_hex`, `data_hex`, `hex(cmd)`) are carried as the bytes themselves. For example, a command is a byte, not a string such as `"0x38"`.
- Classifier.DecodeSpecialDataFrame: each 16-bit value is kept raw; the source divides it by 10000.0 and rounds it to 4 places.
- `print_fueling_report`, the `__main__` block of `mepsan_decoder.py`, JSON serialisation and file I/O are output formatting and not modelled.
- For `sniffer.py`: timestamps, console text, serial-port setup, `argv`, `time.sleep` and reading the simulation file are left out. Each chunk of input becomes the `data` parameter of `Sniffer.Monitor.Step`. What is printed for a frame becomes a `Notice` value.
- The live mode's outer `except` that prints read errors belongs to the serial I/O, which is left out.
- A decoder that fails in the source only through a `KeyError` on the raw fueling-with-extra record is modelled by the `DecodeError` notice. No other decoder can raise on frames that passed their shape test, and the model's preconditions on the decoders say which bytes each reads.
