/** Field decoders of the pump protocol: tolerant and strict binary-coded
    decimal, big-endian 16-bit values, and the run of 16-bit values a
    special-data frame carries. */
module FieldDecoders {
  import opened Bytes

  /** High nibble of a byte (Python: `(byte >> 4) & 0xF`). */
  function Hi(b: byte): nat { b / 16 }

  /** Low nibble of a byte (Python: `byte & 0xF`). */
  function Lo(b: byte): nat { b % 16 }

  /** Both nibbles of b are decimal digits. */
  predicate IsBcdByte(b: byte) { Hi(b) <= 9 && Lo(b) <= 9 }

  predicate AllDigits(ds: seq<nat>) { forall k :: 0 <= k < |ds| ==> ds[k] <= 9 }

  /** The nibbles of bs, high nibble first: the characters that
      `f"{b:02X}"` writes for each byte, as numbers 0..15. */
  function Nibbles(bs: seq<byte>): (ds: seq<nat>)
    ensures |ds| == 2 * |bs|
  {
    if bs == [] then []
    else Nibbles(bs[..|bs| - 1]) + [Hi(bs[|bs| - 1]), Lo(bs[|bs| - 1])]
  }

  /** Value of a string of decimal digits, most significant first,
      as Python's `int()` reads it. */
  function DecimalValue(ds: seq<nat>): nat
  {
    if ds == [] then 0 else DecimalValue(ds[..|ds| - 1]) * 10 + ds[|ds| - 1]
  }

  function Pow10(n: nat): nat { if n == 0 then 1 else 10 * Pow10(n - 1) }

  /** The `width` least significant decimal digits of n, most significant first. */
  function DecimalDigits(n: nat, width: nat): (ds: seq<nat>)
    ensures |ds| == width && AllDigits(ds)
  {
    if width == 0 then [] else DecimalDigits(n / 10, width - 1) + [n % 10]
  }

  /** Packs pairs of decimal digits into BCD bytes. */
  function PackBcd(ds: seq<nat>): (bs: seq<byte>)
    requires |ds| % 2 == 0 && AllDigits(ds)
    ensures |bs| == |ds| / 2
  {
    if ds == [] then []
    else
      var p := ds[..|ds| - 2];
      assert AllDigits(p) by {
        forall k | 0 <= k < |p| ensures p[k] <= 9 { assert p[k] == ds[k]; }
      }
      PackBcd(p) + [ds[|ds| - 2] * 16 + ds[|ds| - 1]]
  }

  /** The nibbles of bs are all decimal digits exactly when every byte is BCD. */
  lemma {:induction false} NibblesAreDigits(bs: seq<byte>)
    ensures AllDigits(Nibbles(bs)) <==> forall j :: 0 <= j < |bs| ==> IsBcdByte(bs[j])
  {
    if bs != [] {
      var p := bs[..|bs| - 1];
      var b := bs[|bs| - 1];
      NibblesAreDigits(p);
      var ds := Nibbles(bs);
      assert ds == Nibbles(p) + [Hi(b), Lo(b)];
      if AllDigits(ds) {
        assert ds[2 * |p|] == Hi(b) && ds[2 * |p| + 1] == Lo(b);
        forall k | 0 <= k < |Nibbles(p)| ensures Nibbles(p)[k] <= 9 { assert ds[k] == Nibbles(p)[k]; }
        forall j | 0 <= j < |bs| ensures IsBcdByte(bs[j]) {
          if j < |p| { assert bs[j] == p[j]; }
        }
      }
      if forall j :: 0 <= j < |bs| ==> IsBcdByte(bs[j]) {
        forall j | 0 <= j < |p| ensures IsBcdByte(p[j]) { assert p[j] == bs[j]; }
        assert IsBcdByte(b);
      }
    }
  }

  /** A string of digits is worth less than 10 to the power of its length. */
  lemma {:induction false} DecimalValueBound(ds: seq<nat>)
    requires AllDigits(ds)
    ensures DecimalValue(ds) < Pow10(|ds|)
  {
    if ds != [] {
      var p := ds[..|ds| - 1];
      assert AllDigits(p) by {
        forall k | 0 <= k < |p| ensures p[k] <= 9 { assert p[k] == ds[k]; }
      }
      DecimalValueBound(p);
      assert ds[|ds| - 1] <= 9;
    }
  }

  /**
   * Tolerant six-digit BCD decoding of three bytes (decode_bcd_3byte):
   * the digits are read high nibble first; any nibble above 9 yields the
   * sentinel 0 instead of a failure.
   */
  function Bcd3(b1: byte, b2: byte, b3: byte): (n: nat)
    ensures n < 1000000
    ensures !(IsBcdByte(b1) && IsBcdByte(b2) && IsBcdByte(b3)) ==> n == 0
  {
    var bs := [b1, b2, b3];
    if IsBcdByte(b1) && IsBcdByte(b2) && IsBcdByte(b3) then
      NibblesAreDigits(bs);
      DecimalValueBound(Nibbles(bs));
      assert Pow10(6) == 1000000;
      DecimalValue(Nibbles(bs))
    else 0
  }

  /** decode_bcd_3byte as the source writes it: a loop over the three bytes
      that collects decimal digits and returns 0 at the first bad nibble. */
  method DecodeBcd3(b1: byte, b2: byte, b3: byte) returns (n: nat)
    ensures n == Bcd3(b1, b2, b3)
  {
    var bytes := [b1, b2, b3];
    var digits: seq<nat> := [];
    for k := 0 to 3
      invariant digits == Nibbles(bytes[..k])
      invariant forall j :: 0 <= j < k ==> IsBcdByte(bytes[j])
    {
      var hi := bytes[k] / 16;
      var lo := bytes[k] % 16;
      if hi > 9 || lo > 9 {
        assert !IsBcdByte(bytes[k]);
        assert k == 0 || k == 1 || k == 2;
        return 0;
      }
      assert bytes[..k + 1][..k] == bytes[..k];
      digits := digits + [hi, lo];
    }
    assert bytes[..3] == bytes;
    assert IsBcdByte(bytes[0]) && IsBcdByte(bytes[1]) && IsBcdByte(bytes[2]);
    n := DecimalValue(digits);
  }

  /** Python's `int(s)` on a string of hex characters given as nibbles:
      it fails on the empty string and on any of the letters A..F. */
  function ParseDecimal(ds: seq<nat>): Option<nat>
  {
    if ds == [] || !AllDigits(ds) then None else Some(DecimalValue(ds))
  }

  /** Strict BCD decoding (bcd_to_number): None where Python raises. */
  function BcdNumber(bs: seq<byte>): Option<nat>
  {
    ParseDecimal(Nibbles(bs))
  }

  /** bcd_to_number as written: builds the hex text byte by byte, then parses it. */
  method BcdToNumber(bs: seq<byte>) returns (r: Option<nat>)
    ensures r == BcdNumber(bs)
  {
    var s: seq<nat> := [];
    for k := 0 to |bs|
      invariant s == Nibbles(bs[..k])
    {
      assert bs[..k + 1][..k] == bs[..k];
      s := s + [bs[k] / 16, bs[k] % 16];
    }
    assert bs[..|bs|] == bs;
    r := ParseDecimal(s);
  }

  /** The strict decoder agrees with the tolerant one on valid BCD and
      fails exactly where the tolerant one falls back to 0. */
  lemma StrictAgreesWithTolerant(b1: byte, b2: byte, b3: byte)
    ensures BcdNumber([b1, b2, b3]) ==
      if IsBcdByte(b1) && IsBcdByte(b2) && IsBcdByte(b3) then Some(Bcd3(b1, b2, b3)) else None
  {
    var bs := [b1, b2, b3];
    NibblesAreDigits(bs);
    if !(IsBcdByte(b1) && IsBcdByte(b2) && IsBcdByte(b3)) {
      assert !IsBcdByte(bs[0]) || !IsBcdByte(bs[1]) || !IsBcdByte(bs[2]);
    }
  }

  /** Valid BCD bytes read as six decimal digits, most significant first. */
  lemma Bcd3Positional(b1: byte, b2: byte, b3: byte)
    requires IsBcdByte(b1) && IsBcdByte(b2) && IsBcdByte(b3)
    ensures Bcd3(b1, b2, b3) ==
      Hi(b1) * 100000 + Lo(b1) * 10000 + Hi(b2) * 1000 + Lo(b2) * 100 + Hi(b3) * 10 + Lo(b3)
  {
    var bs := [b1, b2, b3];
    assert bs[..2] == [b1, b2] && [b1, b2][..1] == [b1] && [b1][..0] == [];
    assert Nibbles([b1]) == [Hi(b1), Lo(b1)];
    assert Nibbles([b1, b2]) == [Hi(b1), Lo(b1)] + [Hi(b2), Lo(b2)];
    var ds := Nibbles(bs);
    assert ds == [Hi(b1), Lo(b1), Hi(b2), Lo(b2)] + [Hi(b3), Lo(b3)];
    assert ds[..5][..4][..3][..2][..1][..0] == [];
    assert DecimalValue(ds[..1]) == Hi(b1);
    assert DecimalValue(ds[..2]) == Hi(b1) * 10 + Lo(b1) by { assert ds[..2][..1] == ds[..1]; }
    assert DecimalValue(ds[..3]) == (Hi(b1) * 10 + Lo(b1)) * 10 + Hi(b2) by { assert ds[..3][..2] == ds[..2]; }
    assert DecimalValue(ds[..4]) == ((Hi(b1) * 10 + Lo(b1)) * 10 + Hi(b2)) * 10 + Lo(b2)
      by { assert ds[..4][..3] == ds[..3]; }
    assert DecimalValue(ds[..5]) == (((Hi(b1) * 10 + Lo(b1)) * 10 + Hi(b2)) * 10 + Lo(b2)) * 10 + Hi(b3)
      by { assert ds[..5][..4] == ds[..4]; }
    assert ds[..6] == ds;
  }

  lemma Bcd3Examples()
    ensures Bcd3(0x12, 0x34, 0x56) == 123456
    ensures Bcd3(0xFA, 0x00, 0x00) == 0
  {
    Bcd3Positional(0x12, 0x34, 0x56);
  }

  lemma Bcd3LeadingZeros()
    ensures Bcd3(0x00, 0x01, 0x23) == 123
    ensures Bcd3(0x00, 0x04, 0x56) == 456
  {
    Bcd3Positional(0x00, 0x01, 0x23);
    Bcd3Positional(0x00, 0x04, 0x56);
  }

  /** BCD encoding of a number below 10^6 into three bytes. */
  function EncodeBcd3(n: nat): (bs: seq<byte>)
    requires n < 1000000
    ensures |bs| == 3
  {
    PackBcd(DecimalDigits(n, 6))
  }

  lemma {:induction false} DecimalDigitsValue(n: nat, width: nat)
    requires n < Pow10(width)
    ensures DecimalValue(DecimalDigits(n, width)) == n
  {
    if width > 0 {
      var d := DecimalDigits(n / 10, width - 1);
      DecimalDigitsValue(n / 10, width - 1);
      assert (d + [n % 10])[..|d|] == d;
    }
  }

  lemma {:induction false} DigitsOfValue(ds: seq<nat>)
    requires AllDigits(ds)
    ensures DecimalDigits(DecimalValue(ds), |ds|) == ds
  {
    if ds != [] {
      var p := ds[..|ds| - 1];
      assert AllDigits(p) by {
        forall k | 0 <= k < |p| ensures p[k] <= 9 { assert p[k] == ds[k]; }
      }
      DigitsOfValue(p);
      var v := DecimalValue(ds);
      assert ds[|ds| - 1] <= 9;
      assert v / 10 == DecimalValue(p) && v % 10 == ds[|ds| - 1];
      assert ds == p + [ds[|ds| - 1]];
    }
  }

  lemma PackedByteNibbles(x: nat, y: nat)
    requires x <= 9 && y <= 9
    ensures 0 <= x * 16 + y < 256
    ensures Hi(x * 16 + y) == x && Lo(x * 16 + y) == y
  {
  }

  lemma NibblesSnoc(p: seq<byte>, b: byte)
    ensures Nibbles(p + [b]) == Nibbles(p) + [Hi(b), Lo(b)]
  {
    assert (p + [b])[..|p|] == p;
  }

  lemma PackLast(ds: seq<nat>)
    requires |ds| % 2 == 0 && AllDigits(ds) && ds != []
    ensures AllDigits(ds[..|ds| - 2])
    ensures 0 <= ds[|ds| - 2] * 16 + ds[|ds| - 1] < 256
    ensures PackBcd(ds) == PackBcd(ds[..|ds| - 2]) + [ds[|ds| - 2] * 16 + ds[|ds| - 1]]
  {
    var p := ds[..|ds| - 2];
    forall k | 0 <= k < |p| ensures p[k] <= 9 { assert p[k] == ds[k]; }
  }

  lemma {:induction false} NibblesOfPack(ds: seq<nat>)
    requires |ds| % 2 == 0 && AllDigits(ds)
    ensures Nibbles(PackBcd(ds)) == ds
  {
    if ds != [] {
      PackLast(ds);
      var p := ds[..|ds| - 2];
      var x, y := ds[|ds| - 2], ds[|ds| - 1];
      var v: byte := x * 16 + y;
      PackedByteNibbles(x, y);
      assert PackBcd(ds) == PackBcd(p) + [v];
      NibblesSnoc(PackBcd(p), v);
      NibblesOfPack(p);
      assert Nibbles(PackBcd(ds)) == p + [x, y];
      assert ds == p + [x, y];
    }
  }

  lemma ByteFromNibbles(b: byte)
    ensures Hi(b) * 16 + Lo(b) == b
  {
  }

  lemma {:induction false} PackOfNibbles(bs: seq<byte>)
    requires AllDigits(Nibbles(bs))
    ensures PackBcd(Nibbles(bs)) == bs
  {
    if bs != [] {
      var p := bs[..|bs| - 1];
      var b := bs[|bs| - 1];
      assert bs == p + [b];
      NibblesSnoc(p, b);
      var np := Nibbles(p);
      var ds := Nibbles(bs);
      assert AllDigits(np) && Hi(b) <= 9 && Lo(b) <= 9 by {
        forall k | 0 <= k < |np| ensures np[k] <= 9 { assert ds[k] == np[k]; }
        assert ds[|np|] == Hi(b) && ds[|np| + 1] == Lo(b);
      }
      assert ds[..|ds| - 2] == np;
      PackLast(ds);
      ByteFromNibbles(b);
      PackOfNibbles(p);
    }
  }

  /** Decoding inverts BCD encoding on every value 0..999999. */
  lemma BcdRoundTrip(n: nat)
    requires n < 1000000
    ensures var bs := EncodeBcd3(n); Bcd3(bs[0], bs[1], bs[2]) == n
  {
    var ds := DecimalDigits(n, 6);
    var bs := EncodeBcd3(n);
    NibblesOfPack(ds);
    assert bs == [bs[0], bs[1], bs[2]];
    NibblesAreDigits(bs);
    assert IsBcdByte(bs[0]) && IsBcdByte(bs[1]) && IsBcdByte(bs[2]);
    assert Pow10(6) == 1000000;
    DecimalDigitsValue(n, 6);
  }

  /** Encoding inverts decoding on every valid BCD triple. */
  lemma BcdRoundTripBytes(b1: byte, b2: byte, b3: byte)
    requires IsBcdByte(b1) && IsBcdByte(b2) && IsBcdByte(b3)
    ensures EncodeBcd3(Bcd3(b1, b2, b3)) == [b1, b2, b3]
  {
    var bs := [b1, b2, b3];
    NibblesAreDigits(bs);
    DigitsOfValue(Nibbles(bs));
    PackOfNibbles(bs);
  }

  /** A big-endian 16-bit field (Python: `(hi << 8) | lo` on two bytes). */
  function Be16(hi: byte, lo: byte): (v: nat)
    ensures v < 0x10000 && v / 256 == hi && v % 256 == lo
  {
    hi * 256 + lo
  }

  /** The 16-bit values read pairwise from d; an odd last byte is ignored. */
  function Be16Pairs(d: seq<byte>): seq<nat>
  {
    seq(|d| / 2, j requires 0 <= j < |d| / 2 => Be16(d[2 * j], d[2 * j + 1]))
  }

  /** Writes 16-bit values back as big-endian byte pairs. */
  function Be16Bytes(vs: seq<nat>): (d: seq<byte>)
    requires forall j :: 0 <= j < |vs| ==> vs[j] < 0x10000
    ensures |d| == 2 * |vs|
  {
    if vs == [] then []
    else Be16Bytes(vs[..|vs| - 1]) + [vs[|vs| - 1] / 256, vs[|vs| - 1] % 256]
  }

  /** Reading the pairs loses nothing of an even-length payload. */
  lemma {:induction false} Be16PairsRoundTrip(d: seq<byte>)
    requires |d| % 2 == 0
    ensures Be16Bytes(Be16Pairs(d)) == d
  {
    if d != [] {
      var p := d[..|d| - 2];
      var vs := Be16Pairs(d);
      assert vs[..|vs| - 1] == Be16Pairs(p);
      Be16PairsRoundTrip(p);
      assert vs[|vs| - 1] == Be16(d[|d| - 2], d[|d| - 1]);
      assert d == p + [d[|d| - 2], d[|d| - 1]];
    }
  }

  /** The value loop of decode_special_data_frame: steps through the payload
      two bytes at a time and keeps every complete pair. */
  method SpecialValues(data: seq<byte>) returns (values: seq<nat>)
    ensures values == Be16Pairs(data)
  {
    values := [];
    var i := 0;
    while i < |data|
      invariant 0 <= i <= |data| + 1 && i % 2 == 0
      invariant |values| == (if i <= |data| then i / 2 else |data| / 2)
      invariant forall j :: 0 <= j < |values| ==> values[j] == Be16(data[2 * j], data[2 * j + 1])
    {
      if i + 1 < |data| {
        values := values + [Be16(data[i], data[i + 1])];
      }
      i := i + 2;
    }
  }
}
