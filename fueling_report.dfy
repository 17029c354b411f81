/**
 * The fueling report (generate_fueling_json_report): keeps the fueling
 * records of a decoded dump and computes, for each, the increment against
 * the one running "previous" value shared by all pumps.
 */
module FuelingReport {
  import opened Bytes
  import opened Classifier

  /** UNIT_PRICE, 2.18 SAR per liter, in hundredths. */
  const UnitPriceCenti: nat := 218

  /** The records whose type is "fueling" or "fueling_with_extra"; the raw
      fueling-with-extra record has that type too. */
  predicate IsFuelingRecord(r: Record)
  {
    r.Fueling? || r.FuelingWithExtra? || r.FuelingWithExtraRaw?
  }

  /** The record carries the decoded fueling fields. */
  predicate HasFuelingFields(r: Record)
  {
    r.Fueling? || r.FuelingWithExtra?
  }

  // `frame.get(key, default)` on the record's fields.
  function PumpOf(r: Record): byte { if r.Unknown? then 0 else r.pump }
  function LitersOf(r: Record): int { if HasFuelingFields(r) then r.litersRaw else 0 }
  function MoneyOf(r: Record): int { if HasFuelingFields(r) then r.moneyRaw else 0 }
  function UnitPriceOf(r: Record): nat { if HasFuelingFields(r) then UnitPriceCenti else 0 }
  function FrameOf(r: Record): seq<byte> { if HasFuelingFields(r) then r.frame else [] }
  function LitersBytesOf(r: Record): seq<byte> { if HasFuelingFields(r) then r.litersBytes else [] }
  function MoneyBytesOf(r: Record): seq<byte> { if HasFuelingFields(r) then r.moneyBytes else [] }

  /** One entry of "fueling_updates". */
  datatype Update = Update(number: nat, pump: byte, liters: int, litersIncrement: int,
                           money: int, moneyIncrement: int, unitPriceCenti: nat,
                           frame: seq<byte>, litersBytes: seq<byte>, moneyBytes: seq<byte>)

  /** The report: status "no_fueling_data" (no updates, total 0) or "success". */
  datatype Report =
    | NoFuelingData
    | Success(totalUpdates: nat, finalLiters: int, finalMoney: int, updates: seq<Update>)

  /** The fueling records of a decoded dump, in order. */
  function FuelingRecords(decoded: seq<Record>): (fs: seq<Record>)
    ensures forall r :: r in fs ==> r in decoded && IsFuelingRecord(r)
  {
    if decoded == [] then []
    else
      var last := decoded[|decoded| - 1];
      FuelingRecords(decoded[..|decoded| - 1]) + (if IsFuelingRecord(last) then [last] else [])
  }

  /** The update for the j-th fueling record: numbered from 1, compared with
      the record before it whatever its pump, and with 0 for the first. */
  function UpdateFor(fs: seq<Record>, j: nat): Update
    requires j < |fs|
  {
    var r := fs[j];
    var prevLiters := if j == 0 then 0 else LitersOf(fs[j - 1]);
    var prevMoney := if j == 0 then 0 else MoneyOf(fs[j - 1]);
    Update(j + 1, PumpOf(r), LitersOf(r), LitersOf(r) - prevLiters, MoneyOf(r), MoneyOf(r) - prevMoney,
           UnitPriceOf(r), FrameOf(r), LitersBytesOf(r), MoneyBytesOf(r))
  }

  /** The report for a decoded dump, stated record by record. */
  function ReportOf(decoded: seq<Record>): Report
  {
    var fs := FuelingRecords(decoded);
    if fs == [] then NoFuelingData
    else Success(|fs|, LitersOf(fs[|fs| - 1]), MoneyOf(fs[|fs| - 1]),
                 seq(|fs|, j requires 0 <= j < |fs| => UpdateFor(fs, j)))
  }

  /** generate_fueling_json_report as written: a loop that carries the
      previous liters and money from one fueling record to the next. */
  method GenerateFuelingReport(decoded: seq<Record>) returns (report: Report)
    ensures report == ReportOf(decoded)
  {
    var fs := FuelingRecords(decoded);
    if |fs| == 0 {
      return NoFuelingData;
    }
    var prevLiters, prevMoney := 0, 0;
    var updates: seq<Update> := [];
    for i := 0 to |fs|
      invariant |updates| == i
      invariant forall j :: 0 <= j < i ==> updates[j] == UpdateFor(fs, j)
      invariant i == 0 ==> prevLiters == 0 && prevMoney == 0
      invariant i > 0 ==> prevLiters == LitersOf(fs[i - 1]) && prevMoney == MoneyOf(fs[i - 1])
    {
      var r := fs[i];
      var liters, money := LitersOf(r), MoneyOf(r);
      updates := updates + [Update(i + 1, PumpOf(r), liters, liters - prevLiters, money, money - prevMoney,
                                   UnitPriceOf(r), FrameOf(r), LitersBytesOf(r), MoneyBytesOf(r))];
      prevLiters, prevMoney := liters, money;
    }
    var final := fs[|fs| - 1];
    report := Success(|fs|, LitersOf(final), MoneyOf(final), updates);
  }

  lemma {:induction false} FuelingRecordsEmpty(decoded: seq<Record>)
    ensures FuelingRecords(decoded) == [] <==> forall r :: r in decoded ==> !IsFuelingRecord(r)
  {
    if decoded != [] {
      var p := decoded[..|decoded| - 1];
      FuelingRecordsEmpty(p);
      assert decoded == p + [decoded[|decoded| - 1]];
      assert forall r :: r in decoded ==> r in p || r == decoded[|decoded| - 1];
    }
  }

  /** Without fueling records the report is "no_fueling_data"; with them it
      counts them and numbers the updates 1..n. */
  lemma ReportShape(decoded: seq<Record>)
    ensures ReportOf(decoded) == NoFuelingData <==> forall r :: r in decoded ==> !IsFuelingRecord(r)
    ensures ReportOf(decoded).Success? ==>
      var rep := ReportOf(decoded);
      rep.totalUpdates == |rep.updates| == |FuelingRecords(decoded)| &&
      forall j :: 0 <= j < |rep.updates| ==> rep.updates[j].number == j + 1
  {
    FuelingRecordsEmpty(decoded);
  }

  function SumLitersIncrements(us: seq<Update>): int
  {
    if us == [] then 0 else SumLitersIncrements(us[..|us| - 1]) + us[|us| - 1].litersIncrement
  }

  function SumMoneyIncrements(us: seq<Update>): int
  {
    if us == [] then 0 else SumMoneyIncrements(us[..|us| - 1]) + us[|us| - 1].moneyIncrement
  }

  lemma {:induction false} TelescopeUpTo(fs: seq<Record>, k: nat)
    requires 0 < k <= |fs|
    ensures var us := seq(k, j requires 0 <= j < k => UpdateFor(fs, j));
      SumLitersIncrements(us) == LitersOf(fs[k - 1]) && SumMoneyIncrements(us) == MoneyOf(fs[k - 1])
  {
    var us := seq(k, j requires 0 <= j < k => UpdateFor(fs, j));
    if k > 1 {
      TelescopeUpTo(fs, k - 1);
      assert us[..k - 1] == seq(k - 1, j requires 0 <= j < k - 1 => UpdateFor(fs, j));
    } else {
      assert us[..0] == [];
    }
  }

  /** The increments telescope: they add up to the final values, which are
      the last fueling record's. */
  lemma IncrementsTelescope(decoded: seq<Record>)
    requires ReportOf(decoded).Success?
    ensures var rep := ReportOf(decoded); var fs := FuelingRecords(decoded);
      rep.finalLiters == LitersOf(fs[|fs| - 1]) && rep.finalMoney == MoneyOf(fs[|fs| - 1]) &&
      SumLitersIncrements(rep.updates) == rep.finalLiters &&
      SumMoneyIncrements(rep.updates) == rep.finalMoney
  {
    var fs := FuelingRecords(decoded);
    TelescopeUpTo(fs, |fs|);
  }

  function FuelingAt(pump: byte, liters: nat, money: nat): Record
  {
    Fueling(pump, 0x38, liters, money, [], [], [])
  }

  /** The fueling records of the dump used by ThreeUpdateExample. */
  lemma ThreeUpdateRecords(a: Record, st: Record, b: Record)
    requires IsFuelingRecord(a) && !IsFuelingRecord(st) && IsFuelingRecord(b)
    ensures FuelingRecords([a, st, a, b]) == [a, a, b]
  {
    var d1, d2, d3 := [a], [a, st], [a, st, a];
    assert d1[..0] == [];
    assert FuelingRecords(d1) == [a];
    assert d2[..1] == d1;
    assert FuelingRecords(d2) == [a];
    assert d3[..2] == d2;
    assert FuelingRecords(d3) == [a, a];
    assert [a, st, a, b][..3] == d3;
  }

  /** Cumulative liters 5.00, 5.00, 7.50 give increments 5.00, 0.00, 2.50 and a final 7.50. */
  lemma ThreeUpdateExample()
    ensures var rep := ReportOf([FuelingAt(1, 50000, 109000), Status(1, 0x30, 0), FuelingAt(1, 50000, 109000),
                                 FuelingAt(1, 75000, 163500)]);
      rep.Success? && rep.totalUpdates == 3 && rep.finalLiters == 75000 &&
      rep.updates[0].litersIncrement == 50000 && rep.updates[1].litersIncrement == 0 &&
      rep.updates[2].litersIncrement == 25000 && rep.updates[2].moneyIncrement == 54500
  {
    var a, b := FuelingAt(1, 50000, 109000), FuelingAt(1, 75000, 163500);
    ThreeUpdateRecords(a, Status(1, 0x30, 0), b);
    var fs := [a, a, b];
    assert UpdateFor(fs, 0).litersIncrement == 50000;
    assert UpdateFor(fs, 1).litersIncrement == 0;
    assert UpdateFor(fs, 2).litersIncrement == 25000 && UpdateFor(fs, 2).moneyIncrement == 54500;
  }

  /** The previous value is shared by all pumps: a record of pump 2 after one
      of pump 1 is compared with pump 1's total, here giving a negative increment. */
  lemma PreviousSharedAcrossPumps()
    ensures var rep := ReportOf([FuelingAt(1, 50000, 109000), FuelingAt(2, 20000, 43600)]);
      rep.Success? && rep.updates[1].pump == 2 && rep.updates[1].litersIncrement == -30000
  {
    var a, b := FuelingAt(1, 50000, 109000), FuelingAt(2, 20000, 43600);
    var decoded := [a, b];
    assert [a][..0] == [];
    assert FuelingRecords([a]) == [a];
    assert decoded[..1] == [a];
    assert FuelingRecords(decoded) == decoded;
    assert UpdateFor(decoded, 1).litersIncrement == 20000 - 50000;
  }

  /** A fueling-with-extra record that kept only its raw bytes still counts as
      an update, with liters and money taken as 0. */
  lemma RawRecordCountsAsZero(pump: byte, command: byte, frame: seq<byte>)
    ensures var rep := ReportOf([FuelingWithExtraRaw(pump, command, frame)]);
      rep == Success(1, 0, 0, [Update(1, pump, 0, 0, 0, 0, 0, [], [], [])])
  {
    var decoded := [FuelingWithExtraRaw(pump, command, frame)];
    assert FuelingRecords(decoded) == decoded;
  }
}
