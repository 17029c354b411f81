/**
 * Frame classification and decoding: the shape predicates (is_*), their
 * decoders (decode_*), the if/elif cascade of decode_dump, and decode_dump
 * itself, starting from bytes rather than from hex text.
 */
module Classifier {
  import opened Bytes
  import opened FieldDecoders
  import opened Framing

  /** Bytes a heartbeat body may consist of. */
  const HeartbeatBytes: set<byte> := {0x50, 0x51, 0x20, 0x70, 0xFA}

  /** Python's `f[lo:-3]`, including its empty result on short frames. */
  function BeforeTrailer(f: seq<byte>, lo: nat): seq<byte>
  {
    if lo <= |f| - 3 then f[lo..|f| - 3] else []
  }

  // ---- Shape predicates, in the order of the source file ----

  /** Shorter than 6 bytes, or a body (all but the last two bytes) made only
      of heartbeat bytes. */
  predicate IsHeartbeat(f: seq<byte>)
  {
    |f| < 6 || forall k :: 0 <= k < |f| - 2 ==> f[k] in HeartbeatBytes
  }

  predicate IsPriceTable(f: seq<byte>)
  {
    |f| == 17 && f[2..6] == [0x01, 0x01, 0x05, 0x03] && EndsWithTerminator(f)
  }

  predicate IsFueling(f: seq<byte>)
  {
    |f| == 16 && f[2] == 0x02 && f[3] == 0x08 && f[4..6] == [0x00, 0x00] && EndsWithTerminator(f)
  }

  predicate IsSinglePrice(f: seq<byte>)
  {
    |f| == 15 && f[2..4] == [0x01, 0x01] && f[4] in {0x01, 0x02, 0x04, 0x05}
    && f[5..9] == [0x03, 0x04, 0x00, 0x21] && f[9] == 0x80 && EndsWithTerminator(f)
  }

  predicate IsStatusFrame(f: seq<byte>)
  {
    |f| == 9 && f[2..4] == [0x01, 0x01] && EndsWithTerminator(f)
  }

  predicate IsExtendedData(f: seq<byte>)
  {
    (|f| == 9 || |f| == 14) && f[2] == 0x65 && EndsWithTerminator(f)
  }

  predicate IsConfigFrame(f: seq<byte>)
  {
    |f| == 12 && f[2..7] == [0x03, 0x04, 0x00, 0x21, 0x80] && EndsWithTerminator(f)
  }

  predicate IsMultiDataFrame(f: seq<byte>)
  {
    |f| == 12 && f[2..4] == [0x02, 0x04] && EndsWithTerminator(f)
  }

  predicate IsSpecialDataFrame(f: seq<byte>)
  {
    |f| == 20 && f[2..6] == [0x05, 0x0C, 0x00, 0x21] && f[6] == 0x80 && EndsWithTerminator(f)
  }

  predicate IsFuelingWithExtra(f: seq<byte>)
  {
    |f| == 22 && f[2..6] == [0x02, 0x08, 0x00, 0x00] && EndsWithTerminator(f)
  }

  // ---- Decoded records ----

  /**
   * One decoded frame. Values are the raw integers the frame carries: liters
   * in ten-thousandths of a liter, money in thousandths of a riyal, prices in
   * ten-thousandths of a riyal per liter. Byte fields stand for the hex text
   * the source renders from them.
   */
  datatype Record =
    | PriceTable(pump: byte, grade: byte, g1: nat, g2: nat, g3: nat, g4: nat)
    | Fueling(pump: byte, command: byte, litersRaw: nat, moneyRaw: nat,
              frame: seq<byte>, litersBytes: seq<byte>, moneyBytes: seq<byte>)
    | FuelingWithExtra(pump: byte, command: byte, litersRaw: nat, moneyRaw: nat, extra: seq<byte>,
                       frame: seq<byte>, litersBytes: seq<byte>, moneyBytes: seq<byte>)
    | FuelingWithExtraRaw(pump: byte, command: byte, frame: seq<byte>)
    | SinglePrice(pump: byte, command: byte, priceType: byte, priceRaw: nat, frame: seq<byte>)
    | Status(pump: byte, command: byte, statusByte: byte)
    | ExtendedData(pump: byte, command: byte, extendedType: byte, data: seq<byte>)
    | Config(pump: byte, command: byte, data: seq<byte>)
    | SpecialData(pump: byte, command: byte, values: Option<seq<nat>>, data: seq<byte>)
    | MultiData(pump: byte, command: byte, data: seq<byte>)
    | Unknown(frame: seq<byte>, priceRejected: bool)

  // ---- Decoders; each requires only the indices it reads ----

  function DecodePriceTable(f: seq<byte>): Record
    requires |f| >= 15
  {
    PriceTable(f[0], f[1], Be16(f[7], f[8]), Be16(f[9], f[10]), Be16(f[11], f[12]), Be16(f[13], f[14]))
  }

  function DecodeFueling(f: seq<byte>): Record
    requires |f| >= 12
  {
    Fueling(f[0], f[1], Bcd3(f[6], f[7], f[8]), Bcd3(f[9], f[10], f[11]), f, f[6..9], f[9..12])
  }

  /** None when the price lies outside 1.0 .. 10.0; with raw = price * 10000
      the float tests `price < 1.0` and `price > 10.0` are these exactly. */
  function DecodeSinglePrice(f: seq<byte>): Option<Record>
    requires |f| >= 12
  {
    var raw := Be16(f[10], f[11]);
    if raw < 10000 || raw > 100000 then None
    else Some(SinglePrice(f[0], f[1], f[4], raw, f))
  }

  function DecodeStatusFrame(f: seq<byte>): Record
    requires |f| >= 5
  {
    Status(f[0], f[1], f[4])
  }

  function DecodeExtendedData(f: seq<byte>): Record
    requires |f| >= 4
  {
    ExtendedData(f[0], f[1], f[3], BeforeTrailer(f, 4))
  }

  function DecodeConfigFrame(f: seq<byte>): Record
    requires |f| >= 2
  {
    Config(f[0], f[1], BeforeTrailer(f, 7))
  }

  function DecodeMultiDataFrame(f: seq<byte>): Record
    requires |f| >= 2
  {
    MultiData(f[0], f[1], BeforeTrailer(f, 4))
  }

  function DecodeSpecialDataFrame(f: seq<byte>): Record
    requires |f| >= 2
  {
    var data := BeforeTrailer(f, 7);
    if |data| >= 6 then SpecialData(f[0], f[1], Some(Be16Pairs(data)), data)
    else SpecialData(f[0], f[1], None, data)
  }

  /** The first 16 bytes are checked and decoded as a fueling frame; if they
      fail the check the record keeps only pump, command and the raw bytes. */
  function DecodeFuelingWithExtra(f: seq<byte>): Record
    requires |f| >= 2
  {
    var head := f[..if |f| < 16 then |f| else 16];
    if IsFueling(head) then
      var d := DecodeFueling(head);
      FuelingWithExtra(d.pump, d.command, d.litersRaw, d.moneyRaw,
                       f[16..if |f| < 20 then |f| else 20], f, d.litersBytes, d.moneyBytes)
    else FuelingWithExtraRaw(f[0], f[1], f)
  }

  // ---- The cascade of decode_dump ----

  /** The if/elif cascade: None for a heartbeat (skipped), otherwise the
      record decode_dump appends. */
  function Classify(f: seq<byte>): (r: Option<Record>)
    ensures r.None? <==> IsHeartbeat(f)
  {
    if IsHeartbeat(f) then None
    else if IsPriceTable(f) then Some(DecodePriceTable(f))
    else if IsFuelingWithExtra(f) then Some(DecodeFuelingWithExtra(f))
    else if IsFueling(f) then Some(DecodeFueling(f))
    else if IsSinglePrice(f) then
      match DecodeSinglePrice(f)
      case Some(p) => Some(p)
      case None => Some(Unknown(f, true))
    else if IsStatusFrame(f) then Some(DecodeStatusFrame(f))
    else if IsExtendedData(f) then Some(DecodeExtendedData(f))
    else if IsConfigFrame(f) then Some(DecodeConfigFrame(f))
    else if IsSpecialDataFrame(f) then Some(DecodeSpecialDataFrame(f))
    else if IsMultiDataFrame(f) then Some(DecodeMultiDataFrame(f))
    else Some(Unknown(f, false))
  }

  // ---- The shapes as an unordered table ----

  datatype Shape =
    | HeartbeatShape | PriceTableShape | FuelingWithExtraShape | FuelingShape | SinglePriceShape
    | StatusShape | ExtendedDataShape | ConfigShape | SpecialDataShape | MultiDataShape

  predicate Matches(f: seq<byte>, k: Shape)
  {
    match k
    case HeartbeatShape => IsHeartbeat(f)
    case PriceTableShape => IsPriceTable(f)
    case FuelingWithExtraShape => IsFuelingWithExtra(f)
    case FuelingShape => IsFueling(f)
    case SinglePriceShape => IsSinglePrice(f)
    case StatusShape => IsStatusFrame(f)
    case ExtendedDataShape => IsExtendedData(f)
    case ConfigShape => IsConfigFrame(f)
    case SpecialDataShape => IsSpecialDataFrame(f)
    case MultiDataShape => IsMultiDataFrame(f)
  }

  /** What the decoder paired with shape k makes of f, looking at no other shape. */
  function DecodeAs(f: seq<byte>, k: Shape): Option<Record>
    requires Matches(f, k)
  {
    match k
    case HeartbeatShape => None
    case PriceTableShape => Some(DecodePriceTable(f))
    case FuelingWithExtraShape => Some(DecodeFuelingWithExtra(f))
    case FuelingShape => Some(DecodeFueling(f))
    case SinglePriceShape =>
      Some(if DecodeSinglePrice(f).Some? then DecodeSinglePrice(f).value else Unknown(f, true))
    case StatusShape => Some(DecodeStatusFrame(f))
    case ExtendedDataShape => Some(DecodeExtendedData(f))
    case ConfigShape => Some(DecodeConfigFrame(f))
    case SpecialDataShape => Some(DecodeSpecialDataFrame(f))
    case MultiDataShape => Some(DecodeMultiDataFrame(f))
  }

  /** Every shape but the heartbeat is at least 9 bytes long and has a
      third byte outside the heartbeat set, so it is never a heartbeat. */
  lemma NonHeartbeatShape(f: seq<byte>, k: Shape)
    requires Matches(f, k) && k != HeartbeatShape
    ensures |f| >= 9 && f[2] !in HeartbeatBytes && !IsHeartbeat(f)
  {
    match k
    case PriceTableShape => assert f[2] == f[2..6][0];
    case FuelingWithExtraShape => assert f[2] == f[2..6][0];
    case SinglePriceShape => assert f[2] == f[2..4][0];
    case StatusShape => assert f[2] == f[2..4][0];
    case ConfigShape => assert f[2] == f[2..7][0];
    case SpecialDataShape => assert f[2] == f[2..6][0];
    case MultiDataShape => assert f[2] == f[2..4][0];
    case _ =>
  }

  /** No frame has two shapes. */
  lemma ShapesDisjoint(f: seq<byte>, j: Shape, k: Shape)
    requires Matches(f, j) && Matches(f, k)
    ensures j == k
  {
    if j != HeartbeatShape && k != HeartbeatShape {
      ThirdByte(f, j);
      ThirdByte(f, k);
    } else if j != HeartbeatShape {
      NonHeartbeatShape(f, j);
    } else if k != HeartbeatShape {
      NonHeartbeatShape(f, k);
    }
  }

  /** The third and fifth bytes each shape fixes, stated as plain indices. */
  lemma ThirdByte(f: seq<byte>, k: Shape)
    requires Matches(f, k) && k != HeartbeatShape
    ensures k == PriceTableShape ==> f[2] == 0x01 && f[4] == 0x05
    ensures k == FuelingWithExtraShape || k == FuelingShape ==> f[2] == 0x02 && f[3] == 0x08
    ensures k == SinglePriceShape || k == StatusShape ==> f[2] == 0x01
    ensures k == ExtendedDataShape ==> f[2] == 0x65
    ensures k == ConfigShape ==> f[2] == 0x03
    ensures k == SpecialDataShape ==> f[2] == 0x05
    ensures k == MultiDataShape ==> f[2] == 0x02 && f[3] == 0x04
  {
    match k
    case PriceTableShape => assert f[2] == f[2..6][0] && f[4] == f[2..6][2];
    case FuelingWithExtraShape => assert f[2] == f[2..6][0] && f[3] == f[2..6][1];
    case SinglePriceShape => assert f[2] == f[2..4][0];
    case StatusShape => assert f[2] == f[2..4][0];
    case ConfigShape => assert f[2] == f[2..7][0];
    case SpecialDataShape => assert f[2] == f[2..6][0];
    case MultiDataShape => assert f[2] == f[2..4][0] && f[3] == f[2..4][1];
    case _ =>
  }

  /** The order of the cascade never matters: whichever shape a frame has,
      the cascade gives what that shape's own decoder gives. */
  lemma CascadeOrderIrrelevant(f: seq<byte>, k: Shape)
    requires Matches(f, k)
    ensures Classify(f) == DecodeAs(f, k)
  {
    if IsHeartbeat(f) { ShapesDisjoint(f, HeartbeatShape, k); }
    if IsPriceTable(f) { ShapesDisjoint(f, PriceTableShape, k); }
    if IsFuelingWithExtra(f) { ShapesDisjoint(f, FuelingWithExtraShape, k); }
    if IsFueling(f) { ShapesDisjoint(f, FuelingShape, k); }
    if IsSinglePrice(f) { ShapesDisjoint(f, SinglePriceShape, k); }
    if IsStatusFrame(f) { ShapesDisjoint(f, StatusShape, k); }
    if IsExtendedData(f) { ShapesDisjoint(f, ExtendedDataShape, k); }
    if IsConfigFrame(f) { ShapesDisjoint(f, ConfigShape, k); }
    if IsSpecialDataFrame(f) { ShapesDisjoint(f, SpecialDataShape, k); }
    if IsMultiDataFrame(f) { ShapesDisjoint(f, MultiDataShape, k); }
  }

  lemma MatchedIsNotPlainUnknown(f: seq<byte>, k: Shape)
    requires Matches(f, k)
    ensures Classify(f) != Some(Unknown(f, false))
  {
    CascadeOrderIrrelevant(f, k);
    assert DecodeAs(f, k) != Some(Unknown(f, false));
  }

  /** A frame of no shape, and only such a frame, becomes a plain unknown record. */
  lemma UnmatchedIsUnknown(f: seq<byte>)
    ensures Classify(f) == Some(Unknown(f, false)) <==> forall k :: !Matches(f, k)
  {
    if exists k :: Matches(f, k) {
      var k :| Matches(f, k);
      MatchedIsNotPlainUnknown(f, k);
    } else {
      assert !Matches(f, HeartbeatShape) && !Matches(f, PriceTableShape);
      assert !Matches(f, FuelingWithExtraShape) && !Matches(f, FuelingShape);
      assert !Matches(f, SinglePriceShape) && !Matches(f, StatusShape);
      assert !Matches(f, ExtendedDataShape) && !Matches(f, ConfigShape);
      assert !Matches(f, SpecialDataShape) && !Matches(f, MultiDataShape);
    }
  }

  /** The price gate: a single-price frame becomes an unknown record with the
      note exactly when its raw price is below 10000 (1.0 SAR/L); the upper
      bound of 10.0 never rejects, as a 16-bit raw value is at most 6.5535. */
  lemma SinglePriceGate(f: seq<byte>)
    requires IsSinglePrice(f)
    ensures Classify(f) == Some(Unknown(f, true)) <==> Be16(f[10], f[11]) < 10000
    ensures Be16(f[10], f[11]) >= 10000 ==>
      Classify(f) == Some(SinglePrice(f[0], f[1], f[4], Be16(f[10], f[11]), f))
  {
    CascadeOrderIrrelevant(f, SinglePriceShape);
  }

  /** Only a single-price frame is ever rejected with the price note. */
  lemma PriceNoteOnlyForSinglePrice(f: seq<byte>)
    requires Classify(f) == Some(Unknown(f, true))
    ensures IsSinglePrice(f) && Be16(f[10], f[11]) < 10000
  {
  }

  /** Fueling fields sit at fixed positions: liters in bytes 6..8 and money
      in bytes 9..11, both BCD; pump and command are bytes 0 and 1. */
  lemma FuelingFields(f: seq<byte>)
    requires IsFueling(f)
    ensures Classify(f) == Some(Fueling(f[0], f[1], Bcd3(f[6], f[7], f[8]), Bcd3(f[9], f[10], f[11]),
                                        f, f[6..9], f[9..12]))
  {
    CascadeOrderIrrelevant(f, FuelingShape);
  }

  /** The four grade prices are the big-endian pairs (7,8), (9,10), (11,12), (13,14). */
  lemma PriceTableFields(f: seq<byte>)
    requires IsPriceTable(f)
    ensures Classify(f) == Some(PriceTable(f[0], f[1], Be16(f[7], f[8]), Be16(f[9], f[10]),
                                           Be16(f[11], f[12]), Be16(f[13], f[14])))
  {
    CascadeOrderIrrelevant(f, PriceTableShape);
  }

  /** Payload slices: a status frame carries its status byte f[4]; extended
      data is f[4..len-3] (2 or 7 bytes), config f[7..9] (2 bytes), multi-data
      f[4..9] (5 bytes), special data f[7..17] (10 bytes), so a special frame
      always takes the branch with five values. */
  lemma PayloadSlices(f: seq<byte>)
    ensures IsStatusFrame(f) ==> Classify(f) == Some(Status(f[0], f[1], f[4]))
    ensures IsExtendedData(f) ==> Classify(f) == Some(ExtendedData(f[0], f[1], f[3], f[4..|f| - 3]))
                                  && |f[4..|f| - 3]| in {2, 7}
    ensures IsConfigFrame(f) ==> Classify(f) == Some(Config(f[0], f[1], f[7..9]))
    ensures IsMultiDataFrame(f) ==> Classify(f) == Some(MultiData(f[0], f[1], f[4..9]))
    ensures IsSpecialDataFrame(f) ==>
      Classify(f) == Some(SpecialData(f[0], f[1], Some(Be16Pairs(f[7..17])), f[7..17]))
      && |Be16Pairs(f[7..17])| == 5
      && forall j :: 0 <= j < 5 ==> Be16Pairs(f[7..17])[j] == Be16(f[7 + 2 * j], f[8 + 2 * j])
  {
    if IsStatusFrame(f) { CascadeOrderIrrelevant(f, StatusShape); }
    if IsExtendedData(f) { CascadeOrderIrrelevant(f, ExtendedDataShape); }
    if IsConfigFrame(f) { CascadeOrderIrrelevant(f, ConfigShape); }
    if IsMultiDataFrame(f) { CascadeOrderIrrelevant(f, MultiDataShape); }
    if IsSpecialDataFrame(f) { CascadeOrderIrrelevant(f, SpecialDataShape); }
  }

  /** A 22-byte fueling frame with extra data is decoded in full exactly when
      bytes 14 and 15 are 03 FA; otherwise it keeps only the raw bytes. */
  lemma FuelingWithExtraBranches(f: seq<byte>)
    requires IsFuelingWithExtra(f)
    ensures TerminatorAt(f, 14) ==>
      Classify(f) == Some(FuelingWithExtra(f[0], f[1], Bcd3(f[6], f[7], f[8]), Bcd3(f[9], f[10], f[11]),
                                           f[16..20], f, f[6..9], f[9..12]))
    ensures !TerminatorAt(f, 14) ==> Classify(f) == Some(FuelingWithExtraRaw(f[0], f[1], f))
  {
    CascadeOrderIrrelevant(f, FuelingWithExtraShape);
    var head := f[..16];
    assert f[2..6] == head[2..6];
    assert head[2] == f[2..6][0] && head[3] == f[2..6][1];
    assert head[4..6] == f[2..6][2..4];
    assert head[14..] == f[14..16];
    assert TerminatorAt(f, 14) <==> head[14..] == [0x03, 0xFA];
    assert head[0] == f[0] && head[1] == f[1];
    assert head[6] == f[6] && head[7] == f[7] && head[8] == f[8];
    assert head[9] == f[9] && head[10] == f[10] && head[11] == f[11];
    assert head[6..9] == f[6..9] && head[9..12] == f[9..12];
  }

  /** Every 22-byte frame the synchroniser emits takes the raw branch: a 03 FA
      at bytes 14 and 15 would have ended the frame there. */
  lemma ExtractedFuelingWithExtraIsRaw(s: seq<byte>, f: seq<byte>)
    requires f in Extract(s) && IsFuelingWithExtra(f)
    ensures Classify(f) == Some(FuelingWithExtraRaw(f[0], f[1], f))
  {
    ExtractedFramesProper(s);
    assert !TerminatorAt(f[..|f| - 1], 14);
    FuelingWithExtraBranches(f);
  }

  /** Whether a frame of six bytes or more is a heartbeat depends only on
      its body: the last two bytes are never looked at. */
  lemma HeartbeatIgnoresTrailer(f: seq<byte>, g: seq<byte>)
    requires |f| >= 6 && |g| >= 6 && f[..|f| - 2] == g[..|g| - 2]
    ensures IsHeartbeat(f) == IsHeartbeat(g)
  {
    assert |f| == |g|;
    forall k | 0 <= k < |f| - 2 ensures f[k] == g[k] {
      assert f[k] == f[..|f| - 2][k] && g[k] == g[..|g| - 2][k];
    }
  }

  /** A frame made only of heartbeat bytes yields no record, whatever its length. */
  lemma HeartbeatBytesOnly(f: seq<byte>)
    requires forall k :: 0 <= k < |f| ==> f[k] in HeartbeatBytes
    ensures Classify(f) == None
  {
  }

  // ---- decode_dump ----

  /** The records decode_dump appends for the frames fs, in order. */
  function DecodeAll(fs: seq<seq<byte>>): seq<Record>
  {
    if fs == [] then []
    else
      DecodeAll(fs[..|fs| - 1]) +
        match Classify(fs[|fs| - 1])
        case None => []
        case Some(r) => [r]
  }

  /** The non-heartbeat frames of fs, in order. */
  function NonHeartbeats(fs: seq<seq<byte>>): (gs: seq<seq<byte>>)
    ensures forall g :: g in gs ==> g in fs && !IsHeartbeat(g)
  {
    if fs == [] then []
    else NonHeartbeats(fs[..|fs| - 1]) + (if IsHeartbeat(fs[|fs| - 1]) then [] else [fs[|fs| - 1]])
  }

  /** decode_dump emits exactly one record per non-heartbeat frame, in frame order. */
  lemma {:induction false} OneRecordPerFrame(fs: seq<seq<byte>>)
    ensures |DecodeAll(fs)| == |NonHeartbeats(fs)|
    ensures forall j :: 0 <= j < |DecodeAll(fs)| ==>
      Some(DecodeAll(fs)[j]) == Classify(NonHeartbeats(fs)[j])
  {
    if fs != [] {
      OneRecordPerFrame(fs[..|fs| - 1]);
    }
  }

  /** decode_dump, starting from bytes: frames are extracted, then each goes
      through the cascade; heartbeats are skipped. */
  method DecodeDump(s: seq<byte>) returns (decoded: seq<Record>)
    ensures decoded == DecodeAll(Extract(s))
  {
    var frames := ExtractFrames(s);
    decoded := [];
    for k := 0 to |frames|
      invariant decoded == DecodeAll(frames[..k])
    {
      assert frames[..k + 1][..k] == frames[..k];
      match Classify(frames[k]) {
        case None =>
        case Some(r) => decoded := decoded + [r];
      }
    }
    assert frames[..|frames|] == frames;
  }

  /** The fueling scenario: a 16-byte frame 01 38 02 08 00 00, liters
      00 01 23, money 00 04 56, any two check bytes and 03 FA decodes to
      123 (0.0123 L) and 456 (0.456 SAR) for pump 1. */
  lemma FuelingScenario(f: seq<byte>)
    requires |f| == 16 && f[14..] == [0x03, 0xFA]
    requires f[..12] == [0x01, 0x38, 0x02, 0x08, 0x00, 0x00, 0x00, 0x01, 0x23, 0x00, 0x04, 0x56]
    ensures f[6..9] == [0x00, 0x01, 0x23] && f[9..12] == [0x00, 0x04, 0x56]
    ensures Classify(f) == Some(Fueling(0x01, 0x38, 123, 456, f, f[6..9], f[9..12]))
  {
    var h := f[..12];
    assert f[0] == h[0] && f[1] == h[1] && f[2] == h[2] && f[3] == h[3] && f[4] == h[4] && f[5] == h[5];
    assert f[6] == h[6] && f[7] == h[7] && f[8] == h[8] && f[9] == h[9] && f[10] == h[10] && f[11] == h[11];
    assert f[4..6] == [0x00, 0x00];
    assert f[|f| - 2..] == f[14..];
    assert IsFueling(f);
    FuelingFields(f);
    Bcd3LeadingZeros();
  }
}
