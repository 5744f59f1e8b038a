/**
 * What `distill` yields for the tables FrameResolver.js holds: the status
 * record of a `statusRaw` field, the composite fields, the two command
 * reports, and `frameHandle` on the frames the framer delivers.
 */
module ReportProperties {
  import opened Wrappers
  import opened HexText
  import opened FrameResolver
  import opened ResolverProperties
  import opened TcpFraming
  import opened FramingProperties

  /**
   * The status formatter turns a number below 2^32 into its 32 binary
   * digits, and gives "NaN" behind 29 zeros when there is no number.
   */
  lemma BitStringFormat(v: string, y: string)
    ensures Format(BitString, v, y).Str?
    ensures ParseHex(v).None? ==>
      var b := Format(BitString, v, y).s;
      |b| == 32 && b[29..] == "NaN" && forall k :: 0 <= k < 29 ==> b[k] == '0'
    ensures ParseHex(v).Some? && ParseHex(v).value < Pow(2, 32) ==>
      var b := Format(BitString, v, y).s;
      |b| == 32 && IsBits(b) && BitsValue(b) == ParseHex(v).value
  {
    var p := ParseHex(v);
    if p.Some? {
      var n := p.value;
      if n < Pow(2, 32) {
        BinLength(n, 32);
        PadBits(n, 32);
      }
    }
  }

  /** Eight hex digits are a number below 2^32. */
  lemma EightDigits(v: string)
    requires IsLowerHex(v) && |v| == 8
    ensures ParseHex(v) == Some(HexNat(v)) && HexNat(v) < Pow(2, 32)
  {
    HexNatBound(v);
    PowSixteen(8);
  }

  lemma StatusWidths()
    ensures forall k :: 0 <= k < |STATUS_TABLE| ==> STATUS_TABLE[k].width == 1
  {
  }

  /** The status table has 23 one-character fields, so it reads 23 bits. */
  lemma StatusSpan()
    ensures |STATUS_TABLE| == 23 && Span(STATUS_TABLE, 0, 23) == 23
  {
    StatusWidths();
    SpanUniform(STATUS_TABLE, 1, 0, 23);
  }

  /** No status bit is named like a part of a composite field. */
  lemma StatusNoParts()
    ensures forall k :: 0 <= k < |STATUS_TABLE| ==>
      STATUS_TABLE[k].name !in {"latitude1", "longitude1", "direction1", "mileage1", "stopDistance1"}
  {
  }

  lemma StatusPartsAbsent()
    ensures forall name :: name in PART_NAMES ==> name !in Names(STATUS_TABLE)
  {
    StatusNoParts();
    forall name | name in PART_NAMES
      ensures name !in Names(STATUS_TABLE)
    {
      NamesFromIndex(STATUS_TABLE, 0, name);
    }
  }

  /** The names the composites are built from. */
  const PART_NAMES := {"latitude1", "longitude1", "direction1", "mileage1", "stopDistance1"}

  /** Each composite is present exactly when it was already, or its first part is. */
  lemma CompositesParts(m: map<string, Value>)
    ensures "latitude" in Composites(m) <==> "latitude" in m || "latitude1" in m
    ensures "longitude" in Composites(m) <==> "longitude" in m || "longitude1" in m
    ensures "direction" in Composites(m) <==> "direction" in m || "direction1" in m
    ensures "mileage" in Composites(m) <==> "mileage" in m || "mileage1" in m
    ensures "stopDistance" in Composites(m) <==> "stopDistance" in m || "stopDistance1" in m
  {
  }

  /** Without any first part, the blocks after the loop add nothing. */
  lemma CompositesNone(m: map<string, Value>)
    requires forall name :: name in PART_NAMES ==> name !in m
    ensures Composites(m) == m
  {
  }

  /**
   * A table with distinct names, no `statusRaw` field and none of the
   * composites' parts decodes to exactly the fields the loop reads.
   */
  lemma DecodePlain(s: string, table: Table, y: string)
    requires DistinctNames(table) && STATUS_RAW !in Names(table)
    requires forall name :: name in PART_NAMES ==> name !in Names(table)
    ensures Fields(s, table, 0, 0, map[], Formatter(y)).Success?
    ensures Decode(s, table, y) == Success(Fields(s, table, 0, 0, map[], Formatter(y)).value)
    ensures Decode(s, table, y).value.Keys == Names(table)
  {
    var fmt := Formatter(y);
    DistinctSucceeds(s, table, fmt);
    FieldsKeys(s, table, 0, 0, map[], fmt);
    var m := Fields(s, table, 0, 0, map[], fmt).value;
    CompositesNone(m);
  }

  /** In a table of one-character fields, field `k` reads character `k`. */
  lemma UniformRead(s: string, table: Table, fmt: (Transform, string) -> Value, k: nat)
    requires k < |table| && Fields(s, table, 0, 0, map[], fmt).Success?
    requires forall j :: 0 <= j < |table| ==> table[j].width == 1
    ensures table[k].name in Fields(s, table, 0, 0, map[], fmt).value
    ensures Fields(s, table, 0, 0, map[], fmt).value[table[k].name] == fmt(table[k].transform, Slice(s, k, k + 1))
  {
    FieldsRead(s, table, 0, 0, map[], fmt, k);
    SpanUniform(table, 1, 0, k);
  }

  /**
   * Decoding a status bit string never fails, yields one entry per status
   * bit and nothing else, and bit `k` is read from character `k`.
   */
  lemma StatusDecode(bits: string, y: string)
    ensures Decode(bits, STATUS_TABLE, y).Success?
    ensures Decode(bits, STATUS_TABLE, y).value.Keys == Names(STATUS_TABLE)
    ensures forall k :: 0 <= k < |STATUS_TABLE| ==>
      STATUS_TABLE[k].name in Decode(bits, STATUS_TABLE, y).value
      && Decode(bits, STATUS_TABLE, y).value[STATUS_TABLE[k].name]
         == Format(STATUS_TABLE[k].transform, Slice(bits, k, k + 1), y)
  {
    var fmt := Formatter(y);
    StatusDistinct();
    StatusPartsAbsent();
    StatusTableNames();
    DecodePlain(bits, STATUS_TABLE, y);
    var m := Fields(bits, STATUS_TABLE, 0, 0, map[], fmt).value;
    StatusWidths();
    forall k | 0 <= k < |STATUS_TABLE|
      ensures STATUS_TABLE[k].name in m
      ensures m[STATUS_TABLE[k].name] == Format(STATUS_TABLE[k].transform, Slice(bits, k, k + 1), y)
    {
      UniformRead(bits, STATUS_TABLE, fmt, k);
    }
  }

  /** Bit `e` (weight 2^e) of `n` is set. */
  predicate BitSet(n: nat, e: nat) {
    n / Pow(2, e) % 2 == 1
  }

  lemma StatusTransforms()
    ensures forall k :: 0 <= k < |STATUS_TABLE| && k != 11 ==> STATUS_TABLE[k].transform == Equals("1")
    ensures STATUS_TABLE[11] == Entry("direction", 1, Choose("1", "uplink", "downlink"))
  {
  }

  /** One character of a bit string, compared with "1". */
  lemma BitText(b: string, k: nat)
    requires IsBits(b) && k < |b|
    ensures Slice(b, k, k + 1) == "1" <==> BitSet(BitsValue(b), |b| - 1 - k)
  {
    assert Slice(b, k, k + 1) == [b[k]];
    BitAt(b, k);
  }

  /** A field reading one character through `Equals("1")` or `Choose("1", ..)` shows its bit. */
  lemma FlagRead(bits: string, table: Table, y: string, st: map<string, Value>, k: nat)
    requires IsBits(bits) && k < |bits| && k < |table|
    requires table[k].name in st && st[table[k].name] == Format(table[k].transform, Slice(bits, k, k + 1), y)
    ensures table[k].transform == Equals("1") ==> st[table[k].name] == Flag(BitSet(BitsValue(bits), |bits| - 1 - k))
    ensures table[k].transform == Choose("1", "uplink", "downlink") ==>
      st[table[k].name] == Str(if BitSet(BitsValue(bits), |bits| - 1 - k) then "uplink" else "downlink")
  {
    BitText(bits, k);
  }

  /** Every `Equals("1")` field of a one-character-per-field record shows its bit. */
  lemma FlagsRead(bits: string, table: Table, y: string, st: map<string, Value>)
    requires IsBits(bits) && |table| <= |bits|
    requires forall k :: 0 <= k < |table| ==>
      table[k].name in st && st[table[k].name] == Format(table[k].transform, Slice(bits, k, k + 1), y)
    ensures forall k :: 0 <= k < |table| && table[k].transform == Equals("1") ==>
      st[table[k].name] == Flag(BitSet(BitsValue(bits), |bits| - 1 - k))
  {
    forall k | 0 <= k < |table| && table[k].transform == Equals("1")
      ensures st[table[k].name] == Flag(BitSet(BitsValue(bits), |bits| - 1 - k))
    {
      FlagRead(bits, table, y, st, k);
    }
  }

  /** Status bit `k` of a 32-digit bit string is its bit of weight 2^(31 - k). */
  lemma StatusBits(bits: string, y: string)
    requires IsBits(bits) && |bits| == 32
    ensures Decode(bits, STATUS_TABLE, y).Success?
    ensures var st := Decode(bits, STATUS_TABLE, y).value;
      forall k :: 0 <= k < |STATUS_TABLE| && k != 11 ==>
        STATUS_TABLE[k].name in st && st[STATUS_TABLE[k].name] == Flag(BitSet(BitsValue(bits), 31 - k))
  {
    StatusDecode(bits, y);
    StatusFlagsOf(bits, y, Decode(bits, STATUS_TABLE, y).value);
  }

  lemma StatusFlagsOf(bits: string, y: string, st: map<string, Value>)
    requires IsBits(bits) && |bits| == 32
    requires forall k :: 0 <= k < |STATUS_TABLE| ==>
      STATUS_TABLE[k].name in st
      && st[STATUS_TABLE[k].name] == Format(STATUS_TABLE[k].transform, Slice(bits, k, k + 1), y)
    ensures forall k :: 0 <= k < |STATUS_TABLE| && k != 11 ==>
      STATUS_TABLE[k].name in st && st[STATUS_TABLE[k].name] == Flag(BitSet(BitsValue(bits), 31 - k))
  {
    FlagsRead(bits, STATUS_TABLE, y, st);
    StatusTransforms();
  }

  /** The `direction` bit, the twelfth, names the uplink when set. */
  lemma StatusDirection(bits: string, y: string)
    requires IsBits(bits) && |bits| == 32
    ensures Decode(bits, STATUS_TABLE, y).Success?
    ensures var st := Decode(bits, STATUS_TABLE, y).value;
      "direction" in st && st["direction"] == Str(if BitSet(BitsValue(bits), 20) then "uplink" else "downlink")
  {
    StatusDecode(bits, y);
    var st := Decode(bits, STATUS_TABLE, y).value;
    StatusTransforms();
    FlagRead(bits, STATUS_TABLE, y, st, 11);
  }

  /**
   * The status record of eight hex digits: status bit `k` is bit `31 - k`
   * of their value, so `fatigue` is the most significant bit; `direction`
   * names the uplink when its bit is set.
   */
  lemma StatusFlags(v: string, y: string)
    requires IsLowerHex(v) && |v| == 8
    ensures Format(BitString, v, y).Str? && Decode(Format(BitString, v, y).s, STATUS_TABLE, y).Success?
    ensures var st := Decode(Format(BitString, v, y).s, STATUS_TABLE, y).value;
      forall k :: 0 <= k < |STATUS_TABLE| && k != 11 ==>
        STATUS_TABLE[k].name in st && st[STATUS_TABLE[k].name] == Flag(BitSet(HexNat(v), 31 - k))
    ensures var st := Decode(Format(BitString, v, y).s, STATUS_TABLE, y).value;
      "direction" in st && st["direction"] == Str(if BitSet(HexNat(v), 20) then "uplink" else "downlink")
  {
    EightDigits(v);
    BitStringFormat(v, y);
    StatusBits(Format(BitString, v, y).s, y);
    StatusDirection(Format(BitString, v, y).s, y);
  }

  /** A block whose first part is present adds its composite's name. */
  lemma CompositeStep(m: map<string, Value>, name: string, first: string, second: string, how: Combine)
    requires first in m
    ensures WithComposite(m, name, first, second, how).Keys == m.Keys + {name}
  {
  }

  /** With every first part present, all five composites are added. */
  lemma CompositesKeys(m: map<string, Value>)
    requires forall name :: name in PART_NAMES ==> name in m
    ensures Composites(m).Keys == m.Keys + DERIVED_NAMES
  {
    var m1 := WithComposite(m, "latitude", "latitude1", "latitude2", InDegrees);
    CompositeStep(m, "latitude", "latitude1", "latitude2", InDegrees);
    var m2 := WithComposite(m1, "longitude", "longitude1", "longitude2", InDegrees);
    CompositeStep(m1, "longitude", "longitude1", "longitude2", InDegrees);
    var m3 := WithComposite(m2, "direction", "direction1", "direction2", AsDecimal);
    CompositeStep(m2, "direction", "direction1", "direction2", AsDecimal);
    var m4 := WithComposite(m3, "mileage", "mileage1", "mileage2", AsDecimal);
    CompositeStep(m3, "mileage", "mileage1", "mileage2", AsDecimal);
    CompositeStep(m4, "stopDistance", "stopDistance1", "stopDistance2", AsDecimal);
  }

  /** A block leaves every other name as it was. */
  lemma CompositeKeeps(m: map<string, Value>, name: string, first: string, second: string, how: Combine, k: string)
    requires k != name
    ensures Lookup(WithComposite(m, name, first, second, how), k) == Lookup(m, k)
  {
  }

  /** A block whose first part is present sets its composite from the parts. */
  lemma CompositeAdds(m: map<string, Value>, name: string, first: string, second: string, how: Combine)
    requires first in m
    ensures Lookup(WithComposite(m, name, first, second, how), name) == Some(Combined(m, first, second, how))
  {
  }

  /** Adding the status record leaves every other name as it was. */
  lemma StatusAdded(c: map<string, Value>, x: Value, k: string)
    requires k != "status"
    ensures Lookup(c["status" := x], k) == Lookup(c, k)
  {
  }

  /** The composites leave the loop's fields, their parts among them, as they were. */
  lemma PartKept(m: map<string, Value>, k: string)
    requires k !in DERIVED_NAMES
    ensures Lookup(Composites(m), k) == Lookup(m, k)
  {
  }

  // Each composite is built from its two parts as the loop decoded them:
  // the blocks before it leave its parts alone, those after leave it alone.

  lemma LatitudeValue(m: map<string, Value>, x: Value)
    requires "latitude1" in m
    ensures var r := Composites(m)["status" := x];
      Lookup(r, "latitude") == Some(Degrees(Lookup(r, "latitude1"), Lookup(r, "latitude2")))
  {
    var m1 := WithComposite(m, "latitude", "latitude1", "latitude2", InDegrees);
    var m2 := WithComposite(m1, "longitude", "longitude1", "longitude2", InDegrees);
    var m3 := WithComposite(m2, "direction", "direction1", "direction2", AsDecimal);
    var m4 := WithComposite(m3, "mileage", "mileage1", "mileage2", AsDecimal);
    CompositeAdds(m, "latitude", "latitude1", "latitude2", InDegrees);
    CompositeKeeps(m1, "longitude", "longitude1", "longitude2", InDegrees, "latitude");
    CompositeKeeps(m2, "direction", "direction1", "direction2", AsDecimal, "latitude");
    CompositeKeeps(m3, "mileage", "mileage1", "mileage2", AsDecimal, "latitude");
    CompositeKeeps(m4, "stopDistance", "stopDistance1", "stopDistance2", AsDecimal, "latitude");
    StatusAdded(Composites(m), x, "latitude");
    StatusAdded(Composites(m), x, "latitude1");
    PartKept(m, "latitude1");
    StatusAdded(Composites(m), x, "latitude2");
    PartKept(m, "latitude2");
  }

  lemma LongitudeValue(m: map<string, Value>, x: Value)
    requires "longitude1" in m
    ensures var r := Composites(m)["status" := x];
      Lookup(r, "longitude") == Some(Degrees(Lookup(r, "longitude1"), Lookup(r, "longitude2")))
  {
    var m1 := WithComposite(m, "latitude", "latitude1", "latitude2", InDegrees);
    var m2 := WithComposite(m1, "longitude", "longitude1", "longitude2", InDegrees);
    var m3 := WithComposite(m2, "direction", "direction1", "direction2", AsDecimal);
    var m4 := WithComposite(m3, "mileage", "mileage1", "mileage2", AsDecimal);
    CompositeKeeps(m, "latitude", "latitude1", "latitude2", InDegrees, "longitude1");
    CompositeKeeps(m, "latitude", "latitude1", "latitude2", InDegrees, "longitude2");
    CompositeAdds(m1, "longitude", "longitude1", "longitude2", InDegrees);
    CompositeKeeps(m2, "direction", "direction1", "direction2", AsDecimal, "longitude");
    CompositeKeeps(m3, "mileage", "mileage1", "mileage2", AsDecimal, "longitude");
    CompositeKeeps(m4, "stopDistance", "stopDistance1", "stopDistance2", AsDecimal, "longitude");
    StatusAdded(Composites(m), x, "longitude");
    StatusAdded(Composites(m), x, "longitude1");
    PartKept(m, "longitude1");
    StatusAdded(Composites(m), x, "longitude2");
    PartKept(m, "longitude2");
  }

  lemma DirectionValue(m: map<string, Value>, x: Value)
    requires "direction1" in m
    ensures var r := Composites(m)["status" := x];
      Lookup(r, "direction") == Some(Decimal(Lookup(r, "direction1"), Lookup(r, "direction2")))
  {
    var m1 := WithComposite(m, "latitude", "latitude1", "latitude2", InDegrees);
    var m2 := WithComposite(m1, "longitude", "longitude1", "longitude2", InDegrees);
    var m3 := WithComposite(m2, "direction", "direction1", "direction2", AsDecimal);
    var m4 := WithComposite(m3, "mileage", "mileage1", "mileage2", AsDecimal);
    CompositeKeeps(m, "latitude", "latitude1", "latitude2", InDegrees, "direction1");
    CompositeKeeps(m, "latitude", "latitude1", "latitude2", InDegrees, "direction2");
    CompositeKeeps(m1, "longitude", "longitude1", "longitude2", InDegrees, "direction1");
    CompositeKeeps(m1, "longitude", "longitude1", "longitude2", InDegrees, "direction2");
    CompositeAdds(m2, "direction", "direction1", "direction2", AsDecimal);
    CompositeKeeps(m3, "mileage", "mileage1", "mileage2", AsDecimal, "direction");
    CompositeKeeps(m4, "stopDistance", "stopDistance1", "stopDistance2", AsDecimal, "direction");
    StatusAdded(Composites(m), x, "direction");
    StatusAdded(Composites(m), x, "direction1");
    PartKept(m, "direction1");
    StatusAdded(Composites(m), x, "direction2");
    PartKept(m, "direction2");
  }

  lemma MileageValue(m: map<string, Value>, x: Value)
    requires "mileage1" in m
    ensures var r := Composites(m)["status" := x];
      Lookup(r, "mileage") == Some(Decimal(Lookup(r, "mileage1"), Lookup(r, "mileage2")))
  {
    var m1 := WithComposite(m, "latitude", "latitude1", "latitude2", InDegrees);
    var m2 := WithComposite(m1, "longitude", "longitude1", "longitude2", InDegrees);
    var m3 := WithComposite(m2, "direction", "direction1", "direction2", AsDecimal);
    var m4 := WithComposite(m3, "mileage", "mileage1", "mileage2", AsDecimal);
    CompositeKeeps(m, "latitude", "latitude1", "latitude2", InDegrees, "mileage1");
    CompositeKeeps(m, "latitude", "latitude1", "latitude2", InDegrees, "mileage2");
    CompositeKeeps(m1, "longitude", "longitude1", "longitude2", InDegrees, "mileage1");
    CompositeKeeps(m1, "longitude", "longitude1", "longitude2", InDegrees, "mileage2");
    CompositeKeeps(m2, "direction", "direction1", "direction2", AsDecimal, "mileage1");
    CompositeKeeps(m2, "direction", "direction1", "direction2", AsDecimal, "mileage2");
    CompositeAdds(m3, "mileage", "mileage1", "mileage2", AsDecimal);
    CompositeKeeps(m4, "stopDistance", "stopDistance1", "stopDistance2", AsDecimal, "mileage");
    StatusAdded(Composites(m), x, "mileage");
    StatusAdded(Composites(m), x, "mileage1");
    PartKept(m, "mileage1");
    StatusAdded(Composites(m), x, "mileage2");
    PartKept(m, "mileage2");
  }

  lemma StopDistanceValue(m: map<string, Value>, x: Value)
    requires "stopDistance1" in m
    ensures var r := Composites(m)["status" := x];
      Lookup(r, "stopDistance") == Some(Decimal(Lookup(r, "stopDistance1"), Lookup(r, "stopDistance2")))
  {
    var m1 := WithComposite(m, "latitude", "latitude1", "latitude2", InDegrees);
    var m2 := WithComposite(m1, "longitude", "longitude1", "longitude2", InDegrees);
    var m3 := WithComposite(m2, "direction", "direction1", "direction2", AsDecimal);
    var m4 := WithComposite(m3, "mileage", "mileage1", "mileage2", AsDecimal);
    CompositeKeeps(m, "latitude", "latitude1", "latitude2", InDegrees, "stopDistance1");
    CompositeKeeps(m, "latitude", "latitude1", "latitude2", InDegrees, "stopDistance2");
    CompositeKeeps(m1, "longitude", "longitude1", "longitude2", InDegrees, "stopDistance1");
    CompositeKeeps(m1, "longitude", "longitude1", "longitude2", InDegrees, "stopDistance2");
    CompositeKeeps(m2, "direction", "direction1", "direction2", AsDecimal, "stopDistance1");
    CompositeKeeps(m2, "direction", "direction1", "direction2", AsDecimal, "stopDistance2");
    CompositeKeeps(m3, "mileage", "mileage1", "mileage2", AsDecimal, "stopDistance1");
    CompositeKeeps(m3, "mileage", "mileage1", "mileage2", AsDecimal, "stopDistance2");
    CompositeAdds(m4, "stopDistance", "stopDistance1", "stopDistance2", AsDecimal);
    StatusAdded(Composites(m), x, "stopDistance");
    StatusAdded(Composites(m), x, "stopDistance1");
    PartKept(m, "stopDistance1");
    StatusAdded(Composites(m), x, "stopDistance2");
    PartKept(m, "stopDistance2");
  }

  /** The names a decoded report may hold besides its fields. */
  const EXTRA_NAMES := DERIVED_NAMES + {"status"}

  /** The conditions under which a table decodes like the two command tables do. */
  predicate ReportTable(table: Table, raw: nat) {
    && DistinctNames(table)
    && raw < |table| && table[raw] == Entry(STATUS_RAW, 8, BitString)
    && (forall name :: name in PART_NAMES ==> name in Names(table))
    && (forall name :: name in EXTRA_NAMES ==> name !in Names(table))
  }

  /** Each field of a successful loop is read at its offset. */
  lemma FieldsAt(s: string, table: Table, fmt: (Transform, string) -> Value)
    requires Fields(s, table, 0, 0, map[], fmt).Success?
    ensures forall j :: 0 <= j < |table| ==>
      table[j].name in Fields(s, table, 0, 0, map[], fmt).value
      && Fields(s, table, 0, 0, map[], fmt).value[table[j].name]
         == fmt(table[j].transform, Slice(s, Offset(table, j), Offset(table, j) + table[j].width))
  {
    forall j | 0 <= j < |table|
      ensures table[j].name in Fields(s, table, 0, 0, map[], fmt).value
      ensures Fields(s, table, 0, 0, map[], fmt).value[table[j].name]
         == fmt(table[j].transform, Slice(s, Offset(table, j), Offset(table, j) + table[j].width))
    {
      FieldsRead(s, table, 0, 0, map[], fmt, j);
    }
  }

  /** The `statusRaw` field holds the bit string of the eight characters at its offset. */
  lemma RawRead(s: string, table: Table, raw: nat, y: string)
    requires raw < |table| && table[raw] == Entry(STATUS_RAW, 8, BitString)
    requires Fields(s, table, 0, 0, map[], Formatter(y)).Success?
    ensures STATUS_RAW in Fields(s, table, 0, 0, map[], Formatter(y)).value
    ensures Fields(s, table, 0, 0, map[], Formatter(y)).value[STATUS_RAW]
      == Format(BitString, Slice(s, Offset(table, raw), Offset(table, raw) + 8), y)
  {
    FieldsRead(s, table, 0, 0, map[], Formatter(y), raw);
  }

  /** How a report table decodes: the loop's fields `m`, their composites, and the status record `st`. */
  lemma ReportShape(s: string, table: Table, raw: nat, y: string) returns (m: map<string, Value>, st: map<string, Value>)
    requires ReportTable(table, raw)
    ensures Fields(s, table, 0, 0, map[], Formatter(y)) == Success(m)
    ensures m.Keys == Names(table)
    ensures var bits := Format(BitString, Slice(s, Offset(table, raw), Offset(table, raw) + 8), y);
      bits.Str? && Decode(bits.s, STATUS_TABLE, y) == Success(st)
    ensures Decode(s, table, y) == Success(Composites(m)["status" := Record(st)])
  {
    var fmt := Formatter(y);
    DistinctSucceeds(s, table, fmt);
    FieldsKeys(s, table, 0, 0, map[], fmt);
    m := Fields(s, table, 0, 0, map[], fmt).value;
    var c := Composites(m);
    StatusRawKept(m);
    RawRead(s, table, raw, y);
    var bits := Format(BitString, Slice(s, Offset(table, raw), Offset(table, raw) + 8), y);
    BitStringFormat(Slice(s, Offset(table, raw), Offset(table, raw) + 8), y);
    StatusDecode(bits.s, y);
    st := Decode(bits.s, STATUS_TABLE, y).value;
    assert c[STATUS_RAW] == bits;
    StatusTableNames();
  }

  /** A report table decodes to its fields, the five composites and the status record. */
  lemma ReportKeys(s: string, table: Table, raw: nat, y: string)
    requires ReportTable(table, raw)
    ensures Decode(s, table, y).Success?
    ensures Decode(s, table, y).value.Keys == Names(table) + EXTRA_NAMES
  {
    var m, st := ReportShape(s, table, raw, y);
    ReportKeysOf(m, Record(st));
  }

  lemma ReportKeysOf(m: map<string, Value>, status: Value)
    requires forall name :: name in PART_NAMES ==> name in m
    ensures Composites(m)["status" := status].Keys == m.Keys + EXTRA_NAMES
  {
    CompositesKeys(m);
  }

  /** Each field of a report table is read at its offset. */
  lemma ReportFields(s: string, table: Table, raw: nat, y: string)
    requires ReportTable(table, raw)
    ensures Decode(s, table, y).Success?
    ensures forall j :: 0 <= j < |table| ==>
      table[j].name in Decode(s, table, y).value
      && Decode(s, table, y).value[table[j].name]
         == Format(table[j].transform, Slice(s, Offset(table, j), Offset(table, j) + table[j].width), y)
  {
    var m, st := ReportShape(s, table, raw, y);
    var r := Composites(m)["status" := Record(st)];
    FieldsAt(s, table, Formatter(y));
    NamedAt(table);
    forall j | 0 <= j < |table|
      ensures table[j].name in r
      ensures r[table[j].name]
        == Format(table[j].transform, Slice(s, Offset(table, j), Offset(table, j) + table[j].width), y)
    {
      assert table[j].name !in EXTRA_NAMES;
      assert r[table[j].name] == m[table[j].name];
    }
  }

  /**
   * A report table never fails to decode: the result holds its fields,
   * the five composites and the status record; each field is read at its
   * offset; the status record decodes the `statusRaw` bits.
   */
  lemma ReportDecode(s: string, table: Table, raw: nat, y: string)
    requires ReportTable(table, raw)
    ensures Decode(s, table, y).Success?
    ensures Decode(s, table, y).value.Keys == Names(table) + EXTRA_NAMES
    ensures forall j :: 0 <= j < |table| ==>
      table[j].name in Decode(s, table, y).value
      && Decode(s, table, y).value[table[j].name]
         == Format(table[j].transform, Slice(s, Offset(table, j), Offset(table, j) + table[j].width), y)
    ensures var bits := Format(BitString, Slice(s, Offset(table, raw), Offset(table, raw) + 8), y);
      bits.Str? && Decode(bits.s, STATUS_TABLE, y).Success?
      && Decode(s, table, y).value["status"] == Record(Decode(bits.s, STATUS_TABLE, y).value)
  {
    var m, st := ReportShape(s, table, raw, y);
    ReportKeys(s, table, raw, y);
    ReportFields(s, table, raw, y);
  }

  /** The composites of a decoded report are built from the report's own parts. */
  lemma ReportComposites(s: string, table: Table, raw: nat, y: string)
    requires ReportTable(table, raw)
    ensures Decode(s, table, y).Success?
    ensures var r := Decode(s, table, y).value;
      && Lookup(r, "latitude") == Some(Degrees(Lookup(r, "latitude1"), Lookup(r, "latitude2")))
      && Lookup(r, "longitude") == Some(Degrees(Lookup(r, "longitude1"), Lookup(r, "longitude2")))
      && Lookup(r, "direction") == Some(Decimal(Lookup(r, "direction1"), Lookup(r, "direction2")))
      && Lookup(r, "mileage") == Some(Decimal(Lookup(r, "mileage1"), Lookup(r, "mileage2")))
      && Lookup(r, "stopDistance") == Some(Decimal(Lookup(r, "stopDistance1"), Lookup(r, "stopDistance2")))
  {
    var m, st := ReportShape(s, table, raw, y);
    var x := Record(st);
    LatitudeValue(m, x);
    LongitudeValue(m, x);
    DirectionValue(m, x);
    MileageValue(m, x);
    StopDistanceValue(m, x);
  }

  /** A set of names no field carries is disjoint from the table's names. */
  lemma Unnamed(table: Table, names: set<string>)
    requires forall k :: 0 <= k < |table| ==> table[k].name !in names
    ensures forall name :: name in names ==> name !in Names(table)
  {
    forall name | name in names
      ensures name !in Names(table)
    {
      NamesFromIndex(table, 0, name);
    }
  }

  lemma CommonNotExtra()
    ensures forall k :: 0 <= k < |COMMON_CONTENT| ==> COMMON_CONTENT[k].name !in EXTRA_NAMES
  {
  }

  lemma CommandNotExtra()
    ensures forall k :: 0 <= k < |TABLE_41| ==> TABLE_41[k].name !in EXTRA_NAMES
    ensures forall k :: 0 <= k < |TABLE_79| ==> TABLE_79[k].name !in EXTRA_NAMES
  {
    CommonNotExtra();
    assert forall k :: 0 <= k < |EXTRA_41| ==> EXTRA_41[k].name !in EXTRA_NAMES;
    assert forall k :: 0 <= k < |EXTRA_79| ==> EXTRA_79[k].name !in EXTRA_NAMES;
    forall k | 0 <= k < |TABLE_41|
      ensures TABLE_41[k].name !in EXTRA_NAMES
    {
      if k >= |COMMON_CONTENT| {
        assert TABLE_41[k] == EXTRA_41[k - |COMMON_CONTENT|];
      }
    }
    forall k | 0 <= k < |TABLE_79|
      ensures TABLE_79[k].name !in EXTRA_NAMES
    {
      if k >= |COMMON_CONTENT| {
        assert TABLE_79[k] == EXTRA_79[k - |COMMON_CONTENT|];
      }
    }
  }

  /** Where the common fields put `statusRaw` and the first parts of the composites. */
  lemma CommonLayout()
    ensures COMMON_CONTENT[16] == Entry(STATUS_RAW, 8, BitString)
    ensures COMMON_CONTENT[4].name == "latitude1" && COMMON_CONTENT[7].name == "longitude1"
    ensures COMMON_CONTENT[11].name == "direction1" && COMMON_CONTENT[13].name == "mileage1"
    ensures COMMON_CONTENT[18].name == "stopDistance1"
    ensures COMMON_CONTENT[4].transform == HexPair && COMMON_CONTENT[7].transform == HexPair
    ensures COMMON_CONTENT[5] == Entry("latitude2", 4, HexInt) && COMMON_CONTENT[8] == Entry("longitude2", 4, HexInt)
    ensures COMMON_CONTENT[11].transform == HexInt && COMMON_CONTENT[12] == Entry("direction2", 2, HexInt)
    ensures COMMON_CONTENT[13].transform == HexInt && COMMON_CONTENT[14] == Entry("mileage2", 2, HexInt)
    ensures COMMON_CONTENT[18].transform == HexInt && COMMON_CONTENT[19] == Entry("stopDistance2", 2, HexInt)
  {
  }

  /** A table that starts with the common fields holds every first part. */
  lemma PartsPresent(table: Table)
    requires |COMMON_CONTENT| <= |table| && table[..|COMMON_CONTENT|] == COMMON_CONTENT
    ensures forall name :: name in PART_NAMES ==> name in Names(table)
  {
    CommonLayout();
    NamedAt(table);
    assert table[4] == COMMON_CONTENT[4] && table[7] == COMMON_CONTENT[7] && table[11] == COMMON_CONTENT[11];
    assert table[13] == COMMON_CONTENT[13] && table[18] == COMMON_CONTENT[18];
  }

  /** Both command tables are report tables, with `statusRaw` the seventeenth field. */
  lemma CommandReportTables()
    ensures ReportTable(TABLE_41, 16) && ReportTable(TABLE_79, 16)
  {
    CommandTablesDistinct();
    CommonLayout();
    assert TABLE_41[..|COMMON_CONTENT|] == COMMON_CONTENT;
    assert TABLE_79[..|COMMON_CONTENT|] == COMMON_CONTENT;
    assert TABLE_41[16] == COMMON_CONTENT[16] && TABLE_79[16] == COMMON_CONTENT[16];
    PartsPresent(TABLE_41);
    PartsPresent(TABLE_79);
    CommandNotExtra();
    Unnamed(TABLE_41, EXTRA_NAMES);
    Unnamed(TABLE_79, EXTRA_NAMES);
  }

  /**
   * `frameHandle` answers null exactly for a command other than 0x41 and
   * 0x79, hands the content to that command's table otherwise, and then
   * never throws.
   */
  lemma FrameHandleCommand(frame: string, y: string)
    ensures FrameHandle(frame, y).Some? <==> Slice(frame, 4, 6) == "41" || Slice(frame, 4, 6) == "79"
    ensures Slice(frame, 4, 6) == "41" ==> FrameHandle(frame, y) == Some(Decode(Content(frame), TABLE_41, y))
    ensures Slice(frame, 4, 6) == "79" ==> FrameHandle(frame, y) == Some(Decode(Content(frame), TABLE_79, y))
    ensures FrameHandle(frame, y).Some? ==> FrameHandle(frame, y).value.Success?
  {
    CommandReportTables();
    ReportDecode(Content(frame), TABLE_41, 16, y);
    ReportDecode(Content(frame), TABLE_79, 16, y);
  }

  /** Two different bytes are spelled differently. */
  lemma HexByteInjective(a: Byte, b: Byte)
    requires HexByte(a) == HexByte(b)
    ensures a == b
  {
    HexNatOfByte(a);
    HexNatOfByte(b);
  }

  lemma CommandDigits()
    ensures HexByte(0x41) == "41" && HexByte(0x79) == "79"
  {
    assert 0x41 / 16 == 4 && 0x41 % 16 == 1 && 0x79 / 16 == 7 && 0x79 % 16 == 9;
    assert HEX_DIGITS[4] == '4' && HEX_DIGITS[1] == '1' && HEX_DIGITS[7] == '7' && HEX_DIGITS[9] == '9';
  }

  /** The command byte and the content of an encoded frame, as `frameHandle` slices them. */
  lemma EncodedFields(cmd: Byte, body: seq<Byte>)
    requires 4 <= |body| && |body| + 2 < 65536
    ensures Slice(ToHex(EncodeFrame(cmd, body)), 4, 6) == HexByte(cmd)
    ensures Content(ToHex(EncodeFrame(cmd, body))) == ToHex(body[4..])
  {
    var bs := EncodeFrame(cmd, body);
    var f := ToHex(bs);
    SliceRange(f, 4, 6);
    ToHexSlice(bs, 2, 3);
    assert bs[2..3] == [cmd];
    assert ToHex([cmd]) == HexByte(cmd) + ToHex([]);
    ToHexSlice(bs, 9, |bs| - 2);
    assert bs[9..|bs| - 2] == body[4..];
  }

  /**
   * A frame a device sends is delivered whole by the framer, and
   * `frameHandle` decodes the body after its first four bytes with the
   * table of its command, or answers null for another command.
   */
  lemma DeviceReport(cmd: Byte, body: seq<Byte>, y: string)
    requires 4 <= |body| && |body| + 2 < 65536
    ensures var f := ToHex(EncodeFrame(cmd, body));
      && Scan(f) == Outcome([f], [], [])
      && (cmd == 0x41 ==> FrameHandle(f, y) == Some(Decode(ToHex(body[4..]), TABLE_41, y)))
      && (cmd == 0x79 ==> FrameHandle(f, y) == Some(Decode(ToHex(body[4..]), TABLE_79, y)))
      && (cmd != 0x41 && cmd != 0x79 ==> FrameHandle(f, y).None?)
  {
    var f := ToHex(EncodeFrame(cmd, body));
    EncodeRoundTrip(cmd, body);
    EncodedFields(cmd, body);
    FrameHandleCommand(f, y);
    CommandDigits();
    if HexByte(cmd) == "41" {
      HexByteInjective(cmd, 0x41);
    }
    if HexByte(cmd) == "79" {
      HexByteInjective(cmd, 0x79);
    }
  }

  /**
   * Either command's content is read up to character 80 (0x41) or 96
   * (0x79), and its status record decodes the eight characters from 58.
   */
  lemma CommandStatusAt(s: string, y: string)
    ensures var bits := Format(BitString, Slice(s, 58, 66), y);
      && bits.Str? && Decode(bits.s, STATUS_TABLE, y).Success?
      && Decode(s, TABLE_41, y).Success? && "status" in Decode(s, TABLE_41, y).value
      && Decode(s, TABLE_79, y).Success? && "status" in Decode(s, TABLE_79, y).value
      && Decode(s, TABLE_41, y).value["status"] == Record(Decode(bits.s, STATUS_TABLE, y).value)
      && Decode(s, TABLE_79, y).value["status"] == Record(Decode(bits.s, STATUS_TABLE, y).value)
  {
    CommandReportTables();
    CommandWidths();
    ReportDecode(s, TABLE_41, 16, y);
    ReportDecode(s, TABLE_79, 16, y);
  }

  /** Field `j` of a report table, read at offset `off`. */
  lemma ReportFieldAt(s: string, table: Table, raw: nat, y: string, j: nat, off: nat)
    requires ReportTable(table, raw)
    requires j < |table| && Offset(table, j) == off
    ensures Decode(s, table, y).Success? && table[j].name in Decode(s, table, y).value
    ensures Decode(s, table, y).value[table[j].name]
      == Format(table[j].transform, Slice(s, off, off + table[j].width), y)
  {
    var name := table[j].name;
    var m, st := ReportShape(s, table, raw, y);
    LoopFieldAt(s, table, Formatter(y), j, off, m);
    NamedAt(table);
    assert name !in EXTRA_NAMES;
    PartKept(m, name);
    StatusAdded(Composites(m), Record(st), name);
  }

  /** Field `j` of a successful loop, read at offset `off`. */
  lemma LoopFieldAt(s: string, table: Table, fmt: (Transform, string) -> Value, j: nat, off: nat, m: map<string, Value>)
    requires Fields(s, table, 0, 0, map[], fmt) == Success(m)
    requires j < |table| && Offset(table, j) == off
    ensures table[j].name in m && m[table[j].name] == fmt(table[j].transform, Slice(s, off, off + table[j].width))
  {
    FieldsRead(s, table, 0, 0, map[], fmt, j);
  }

  /** The flag, the hemispheres and the altitude among the common fields. */
  lemma CommonReadings()
    ensures COMMON_CONTENT[2] == Entry("gpsEffective", 2, Equals("41"))
    ensures COMMON_CONTENT[3] == Entry("latitudeDirection", 2, Choose("4e", "north", "south"))
    ensures COMMON_CONTENT[6] == Entry("longitudeDirection", 2, Choose("45", "east", "west"))
    ensures COMMON_CONTENT[9] == Entry("altitude", 4, HiLo100)
  {
  }

  /** A table that starts with the common fields, as both command tables do. */
  predicate CommonFirst(table: Table) {
    |COMMON_CONTENT| <= |table| && table[..|COMMON_CONTENT|] == COMMON_CONTENT
  }

  /** Both command tables start with the common fields and are report tables. */
  lemma CommandsCommonFirst()
    ensures CommonFirst(TABLE_41) && ReportTable(TABLE_41, 16)
    ensures CommonFirst(TABLE_79) && ReportTable(TABLE_79, 16)
  {
    CommandReportTables();
    assert TABLE_41[..|COMMON_CONTENT|] == COMMON_CONTENT;
    assert TABLE_79[..|COMMON_CONTENT|] == COMMON_CONTENT;
  }

  /** Common field `j` of such a table, the entry `e`, is read at `COMMON_OFFSETS[j]`. */
  lemma CommonAt(table: Table, j: nat, e: Entry)
    requires CommonFirst(table)
    requires j < |COMMON_CONTENT| && COMMON_CONTENT[j] == e
    ensures j < |table| && table[j] == e && Offset(table, j) == COMMON_OFFSETS[j]
  {
    var rest := table[|COMMON_CONTENT|..];
    assert table == COMMON_CONTENT + rest;
    SpanSums(COMMON_CONTENT, COMMON_OFFSETS, j);
    SpanPrefix(COMMON_CONTENT, rest, 0, j);
  }

  /** Either command marks the position valid exactly when characters 6 to 8 are "41". */
  lemma GpsEffectiveRead(s: string, table: Table, y: string)
    requires ReportTable(table, 16) && CommonFirst(table)
    ensures Decode(s, table, y).Success? && "gpsEffective" in Decode(s, table, y).value
    ensures Decode(s, table, y).value["gpsEffective"] == Flag(Slice(s, 6, 8) == "41")
  {
    CommonReadings();
    CommonAt(table, 2, Entry("gpsEffective", 2, Equals("41")));
    ReportFieldAt(s, table, 16, y, 2, 6);
  }

  /** Either command puts the position north exactly when characters 8 to 10 are "4e". */
  lemma LatitudeDirectionRead(s: string, table: Table, y: string)
    requires ReportTable(table, 16) && CommonFirst(table)
    ensures Decode(s, table, y).Success? && "latitudeDirection" in Decode(s, table, y).value
    ensures Decode(s, table, y).value["latitudeDirection"]
      == Str(if Slice(s, 8, 10) == "4e" then "north" else "south")
  {
    CommonReadings();
    CommonAt(table, 3, Entry("latitudeDirection", 2, Choose("4e", "north", "south")));
    ReportFieldAt(s, table, 16, y, 3, 8);
  }

  /** Either command puts the position east exactly when characters 18 to 20 are "45". */
  lemma LongitudeDirectionRead(s: string, table: Table, y: string)
    requires ReportTable(table, 16) && CommonFirst(table)
    ensures Decode(s, table, y).Success? && "longitudeDirection" in Decode(s, table, y).value
    ensures Decode(s, table, y).value["longitudeDirection"]
      == Str(if Slice(s, 18, 20) == "45" then "east" else "west")
  {
    CommonReadings();
    CommonAt(table, 6, Entry("longitudeDirection", 2, Choose("45", "east", "west")));
    ReportFieldAt(s, table, 16, y, 6, 18);
  }

  /** Two lowercase digits inside the text read as their value. */
  lemma ByteRead(s: string, i: nat)
    requires IsLowerHex(s) && i + 2 <= |s|
    ensures ParseHex(Slice(s, i, i + 2)) == Some(HexNat(s[i..i + 2]))
  {
    SliceRange(s, i, i + 2);
    LowerHexSlice(s, i, i + 2);
  }

  /**
   * The hundreds formatter on the four characters from `i` reads the byte
   * at `i` times 100 plus the byte at `i + 2`, and NaN when either is NaN.
   */
  lemma HundredsAt(s: string, i: nat, y: string)
    ensures Format(HiLo100, Slice(s, i, i + 4), y)
      == Num(Hundreds(ParseHex(Slice(s, i, i + 2)), ParseHex(Slice(s, i + 2, i + 4))))
  {
    HundredsParts(s, i);
  }

  /** The two halves the hundreds formatter cuts from four characters at `i`. */
  lemma HundredsParts(s: string, i: nat)
    ensures Slice(Slice(s, i, i + 4), 0, 2) == Slice(s, i, i + 2)
    ensures Slice(Slice(s, i, i + 4), 2, |Slice(s, i, i + 4)|) == Slice(s, i + 2, i + 4)
  {
    var v := Slice(s, i, i + 4);
    SliceOfSlice(s, i, i + 4, 0, 2);
    SliceOfSlice(s, i, i + 4, 2, |v|);
    if i < |s| {
      assert i + |v| == Min(i + 4, |s|);
    } else {
      assert |v| == 0;
    }
  }

  /**
   * The altitude of either command is the byte at characters 28 to 30
   * times 100 plus the byte at 30 to 32, and NaN when either is NaN.
   */
  lemma AltitudeRead(s: string, table: Table, y: string)
    requires ReportTable(table, 16) && CommonFirst(table)
    ensures Decode(s, table, y).Success? && "altitude" in Decode(s, table, y).value
    ensures Decode(s, table, y).value["altitude"]
      == Num(Hundreds(ParseHex(Slice(s, 28, 30)), ParseHex(Slice(s, 30, 32))))
  {
    AltitudeAt(s, table, y);
    HundredsAt(s, 28, y);
  }

  /** Two lowercase bytes at `i` and `i + 2` give the number hi * 100 + lo. */
  lemma HundredsHex(s: string, i: nat)
    requires IsLowerHex(s) && i + 4 <= |s|
    ensures Hundreds(ParseHex(Slice(s, i, i + 2)), ParseHex(Slice(s, i + 2, i + 4)))
      == Some(HexNat(s[i..i + 2]) * 100 + HexNat(s[i + 2..i + 4]))
  {
    ByteRead(s, i);
    ByteRead(s, i + 2);
  }

  /** The altitude of either command is the hundreds formatter on characters 28 to 32. */
  lemma AltitudeAt(s: string, table: Table, y: string)
    requires ReportTable(table, 16) && CommonFirst(table)
    ensures Decode(s, table, y).Success? && "altitude" in Decode(s, table, y).value
    ensures Decode(s, table, y).value["altitude"] == Format(HiLo100, Slice(s, 28, 32), y)
  {
    CommonReadings();
    CommonAt(table, 9, Entry("altitude", 4, HiLo100));
    ReportFieldAt(s, table, 16, y, 9, 28);
  }

  /** The stop report's stop type and direction of travel are its fields 20 and 21. */
  lemma StopExtrasAt()
    ensures ReportTable(TABLE_79, 16) && |TABLE_79| == 25
    ensures TABLE_79[20] == Entry("stopType", 2, StopKind) && Offset(TABLE_79, 20) == 76
    ensures TABLE_79[21] == Entry("inOutBound", 2, InOut) && Offset(TABLE_79, 21) == 78
  {
    CommandReportTables();
    CommandWidths();
  }

  /** A stop report reads its stop type from characters 76 to 78. */
  lemma StopTypeRead(s: string, y: string)
    ensures Decode(s, TABLE_79, y).Success? && "stopType" in Decode(s, TABLE_79, y).value
    ensures Decode(s, TABLE_79, y).value["stopType"] == StopOf(ParseHex(Slice(s, 76, 78)))
  {
    StopExtrasAt();
    ReportFieldAt(s, TABLE_79, 16, y, 20, 76);
  }

  /** A stop report is inbound exactly when characters 78 to 80 read as zero. */
  lemma InOutBoundRead(s: string, y: string)
    ensures Decode(s, TABLE_79, y).Success? && "inOutBound" in Decode(s, TABLE_79, y).value
    ensures Decode(s, TABLE_79, y).value["inOutBound"]
      == Str(if ParseHex(Slice(s, 78, 80)) == Some(0) then "in" else "out")
    ensures IsLowerHex(s) && |s| >= 80 ==>
      Decode(s, TABLE_79, y).value["inOutBound"] == Str(if HexNat(s[78..80]) == 0 then "in" else "out")
  {
    StopExtrasAt();
    ReportFieldAt(s, TABLE_79, 16, y, 21, 78);
    if IsLowerHex(s) && |s| >= 80 {
      ByteRead(s, 78);
    }
  }
}
