/**
 * The field decoder of FrameResolver.js. A decoding table lists, in
 * order, a field name, the number of hex characters the field takes and
 * how the raw characters become a value; `distill` walks the table over
 * the content, then rebuilds the composite fields (coordinates and
 * two-part decimals) and decodes the status bit string with a second
 * table.
 *
 * JavaScript values are modelled by `Value`: `Num(None)` is NaN, and the
 * decimals the composites build are exact reals.
 */
module FrameResolver {
  import opened Wrappers
  import opened HexText

  /** How a field's raw hex characters become its value. */
  datatype Transform =
    | Keep                              // no formatter: the raw text
    | Equals(code: string)              // v == code
    | Choose(code: string, yes: string, no: string)  // v == code ? yes : no
    | HexInt                            // parseInt(v, 16)
    | HexPair                           // [parseInt(v[0..2], 16), parseInt(v[2..], 16)]
    | HiLo100                           // parseInt(v[0..2], 16) * 100 + parseInt(v[2..], 16)
    | DateText                          // the date text built with the year prefix
    | BitString                         // padLeft(parseInt(v, 16).toString(2), 32)
    | StopKind                          // the stop type named by a character code
    | InOut                             // parseInt(v, 16) == 0 ? 'in' : 'out'

  datatype Value =
    | Str(s: string)
    | Num(n: Option<nat>)
    | Flag(b: bool)
    | Pair(first: Option<nat>, second: Option<nat>)
    | Stop(en: Option<string>, zh: Option<string>)
    | Date(text: string)
    | Real(r: Option<real>)
    | Record(fields: map<string, Value>)

  datatype Entry = Entry(name: string, width: nat, transform: Transform)

  type Table = seq<Entry>

  /** The error `distill` throws. */
  datatype DecodeError =
    | DuplicateField(name: string)     // a table names one field twice
    | StatusNotText                    // `statusRaw` holds no string to slice

  const STATUS_RAW := "statusRaw"

  /**
   * The fields shared by both command types: 20 fields, 76 hex characters,
   * with `statusRaw` at characters 58 to 66 (ResolverProperties.CommonWidths).
   */
  const COMMON_CONTENT: Table := [
    Entry("cmdSN", 4, Keep),
    Entry("cmdID", 2, Keep),
    Entry("gpsEffective", 2, Equals("41")),
    Entry("latitudeDirection", 2, Choose("4e", "north", "south")),
    Entry("latitude1", 4, HexPair),
    Entry("latitude2", 4, HexInt),
    Entry("longitudeDirection", 2, Choose("45", "east", "west")),
    Entry("longitude1", 4, HexPair),
    Entry("longitude2", 4, HexInt),
    Entry("altitude", 4, HiLo100),
    Entry("speed", 2, HexInt),
    Entry("direction1", 4, HexInt),
    Entry("direction2", 2, HexInt),
    Entry("mileage1", 4, HexInt),
    Entry("mileage2", 2, HexInt),
    Entry("time", 12, DateText),
    Entry(STATUS_RAW, 8, BitString),
    Entry("lastStopNO", 4, HexInt),
    Entry("stopDistance1", 4, HexInt),
    Entry("stopDistance2", 2, HexInt)
  ]

  /** The status bits, one character each, most significant bit first. */
  const STATUS_TABLE: Table := [
    Entry("fatigue", 1, Equals("1")),
    Entry("overspeed", 1, Equals("1")),
    Entry("suddenBrake", 1, Equals("1")),
    Entry("stopBeyondTime", 1, Equals("1")),
    Entry("alarmPassenger", 1, Equals("1")),
    Entry("gpsShortCircuit", 1, Equals("1")),
    Entry("gpsOpenCircuit", 1, Equals("1")),
    Entry("alarmGPS", 1, Equals("1")),
    Entry("driverCall", 1, Equals("1")),
    Entry("gpsEffective", 1, Equals("1")),
    Entry("serving", 1, Equals("1")),
    Entry("direction", 1, Choose("1", "uplink", "downlink")),
    Entry("stopDock", 1, Equals("1")),
    Entry("stopFirst", 1, Equals("1")),
    Entry("stopEnd", 1, Equals("1")),
    Entry("stopGas", 1, Equals("1")),
    Entry("stopPark", 1, Equals("1")),
    Entry("cashboxOpen", 1, Equals("1")),
    Entry("abnormalDoorSignalStop", 1, Equals("1")),
    Entry("abnormalDoorSignalMove", 1, Equals("1")),
    Entry("alarmPowerCut", 1, Equals("1")),
    Entry("alarmPark", 1, Equals("1")),
    Entry("alarmYaw", 1, Equals("1"))
  ]

  /** The fields command 0x41, the real-time report, appends to the common ones. */
  const EXTRA_41: Table := [
    Entry("temperature", 2, HexInt),
    Entry("speedLimit", 2, HexInt)
  ]

  /** The fields command 0x79, the stop report, appends to the common ones. */
  const EXTRA_79: Table := [
    Entry("stopType", 2, StopKind),
    Entry("inOutBound", 2, InOut),
    Entry("upNum", 4, HexInt),
    Entry("downNum", 4, HexInt),
    Entry("cardAmount", 8, HexInt)
  ]

  const TABLE_41: Table := COMMON_CONTENT + EXTRA_41

  const TABLE_79: Table := COMMON_CONTENT + EXTRA_79

  /** The names of the fields from `table[from]` on. */
  function NamesFrom(table: Table, from: nat): set<string>
    decreases |table| - from
  {
    if from >= |table| then {} else {table[from].name} + NamesFrom(table, from + 1)
  }

  /** A name no field from `table[from]` on carries is not among their names. */
  lemma {:induction false} NotNamedFrom(table: Table, name: string, from: nat)
    requires forall k :: from <= k < |table| ==> table[k].name != name
    ensures name !in NamesFrom(table, from)
    decreases |table| - from
  {
    if from < |table| {
      NotNamedFrom(table, name, from + 1);
    }
  }

  function Names(table: Table): set<string> {
    NamesFrom(table, 0)
  }

  /** A name is among a table's names exactly when some field carries it. */
  lemma {:induction false} NamesFromIndex(table: Table, from: nat, name: string)
    ensures name in NamesFrom(table, from) <==> exists k :: from <= k < |table| && table[k].name == name
    decreases |table| - from
  {
    if from < |table| {
      NamesFromIndex(table, from + 1, name);
      if name in NamesFrom(table, from + 1) {
        var k :| from + 1 <= k < |table| && table[k].name == name;
        assert from <= k;
      }
      if exists k :: from <= k < |table| && table[k].name == name {
        var k :| from <= k < |table| && table[k].name == name;
        if k > from {
          assert name in NamesFrom(table, from + 1);
        }
      }
    }
  }

  /** Every field's name is among the table's names, and they are all there is. */
  lemma NamedAt(table: Table)
    ensures forall j :: 0 <= j < |table| ==> table[j].name in Names(table)
    ensures forall name :: name in Names(table) ==> exists j :: 0 <= j < |table| && table[j].name == name
  {
    forall j | 0 <= j < |table|
      ensures table[j].name in Names(table)
    {
      NamesFromIndex(table, 0, table[j].name);
    }
    forall name | name in Names(table)
      ensures exists j :: 0 <= j < |table| && table[j].name == name
    {
      NamesFromIndex(table, 0, name);
    }
  }

  /** `str + ''` padded on the left with `c` up to length `len`. */
  function PadLeft(s: string, len: nat, c: char): (r: string)
    ensures |r| == Max(len, |s|)
    ensures r[|r| - |s|..] == s
    ensures forall k :: 0 <= k < |r| - |s| ==> r[k] == c
  {
    if |s| < len then seq(len - |s|, _ => c) + s else s
  }

  predicate IsBitChar(c: char) {
    c == '0' || c == '1'
  }

  predicate IsBits(s: string) {
    forall i :: 0 <= i < |s| ==> IsBitChar(s[i])
  }

  /** Big-endian value of a string of binary digits. */
  function BitsValue(s: string): nat
    requires IsBits(s)
  {
    if s == [] then 0 else 2 * BitsValue(s[..|s| - 1]) + (if s[|s| - 1] == '1' then 1 else 0)
  }

  function BitChar(b: nat): char
    requires b < 2
  {
    if b == 0 then '0' else '1'
  }

  /** `n.toString(2)`: binary digits without leading zeros. */
  function Bin(n: nat): (r: string)
    ensures r != [] && IsBits(r) && BitsValue(r) == n
    ensures r[0] == '1' || r == "0"
  {
    if n < 2 then [BitChar(n)]
    else
      var p := Bin(n / 2);
      var r := p + [BitChar(n % 2)];
      assert r[..|r| - 1] == p;
      r
  }

  /** The character codes of the five stop types: 'F', 'B', 'f', 'I' and 'i'. */
  const STOP_CODES: set<nat> := {'F' as nat, 'B' as nat, 'f' as nat, 'I' as nat, 'i' as nat}

  /**
   * `String.fromCharCode(parseInt(v, 16))` compared with the five stop
   * codes: a stop is named, in English and Chinese, exactly when the
   * code's low 16 bits are one of the five; NaN names none.
   */
  function StopOf(code: Option<nat>): (r: Value)
    ensures r.Stop? && (r.en.Some? <==> r.zh.Some?)
    ensures r.en.Some? <==> code.Some? && code.value % 65536 in STOP_CODES
  {
    // fromCharCode keeps the low 16 bits, and NaN becomes code 0
    var c := if code.Some? then code.value % 65536 else 0;
    if c == 'F' as int then Stop(Some("dock"), Some("停靠站"))
    else if c == 'B' as int then Stop(Some("first"), Some("起点站"))
    else if c == 'f' as int then Stop(Some("end"), Some("终点站"))
    else if c == 'I' as int then Stop(Some("park"), Some("停车场"))
    else if c == 'i' as int then Stop(Some("gas"), Some("加油站"))
    else Stop(None, None)
  }

  /**
   * The text handed to `new Date`: the year prefix and the six two-digit
   * groups as "YYYY-MM-DD hh:mm:ss".
   */
  function DateTextOf(v: string, yearPrefix: string): (r: string)
    ensures |r| >= |yearPrefix| && r[..|yearPrefix|] == yearPrefix
    ensures |v| >= 12 ==> |r| == |yearPrefix| + 17
    ensures |v| >= 12 ==> forall k :: 0 <= k < 6 ==>
      r[|yearPrefix| + 3 * k..|yearPrefix| + 3 * k + 2] == v[2 * k..2 * k + 2]
    ensures |v| >= 12 ==> forall k :: 0 <= k < 5 ==> r[|yearPrefix| + 3 * k + 2] == DATE_SEPARATORS[k]
  {
    var groups := seq(6, k requires 0 <= k < 6 => Slice(v, 2 * k, 2 * k + 2));
    DateGroups(v, yearPrefix, groups);
    yearPrefix + Joined(groups, DATE_SEPARATORS)
  }

  /** What stands between the two-digit groups of "YYYY-MM-DD hh:mm:ss". */
  const DATE_SEPARATORS := "-- ::"

  /** The groups with one separator between each two. */
  function Joined(groups: seq<string>, seps: string): string
    requires |groups| == |seps| + 1
    decreases |seps|
  {
    if seps == [] then groups[0] else groups[0] + [seps[0]] + Joined(groups[1..], seps[1..])
  }

  /** Two-character groups with one separator between each two. */
  lemma {:induction false} JoinedPairs(groups: seq<string>, seps: string)
    requires |groups| == |seps| + 1
    requires forall k :: 0 <= k < |groups| ==> |groups[k]| == 2
    ensures |Joined(groups, seps)| == 3 * |seps| + 2
    ensures forall k :: 0 <= k < |groups| ==> Joined(groups, seps)[3 * k..3 * k + 2] == groups[k]
    ensures forall k :: 0 <= k < |seps| ==> Joined(groups, seps)[3 * k + 2] == seps[k]
    decreases |seps|
  {
    if seps != [] {
      var t := Joined(groups[1..], seps[1..]);
      JoinedPairs(groups[1..], seps[1..]);
      var r := groups[0] + [seps[0]] + t;
      assert Joined(groups, seps) == r;
      forall k | 1 <= k < |groups|
        ensures r[3 * k..3 * k + 2] == groups[k]
      {
        assert r[3 * k..3 * k + 2] == t[3 * (k - 1)..3 * (k - 1) + 2];
        assert groups[1..][k - 1] == groups[k];
      }
      forall k | 1 <= k < |seps|
        ensures r[3 * k + 2] == seps[k]
      {
        assert r[3 * k + 2] == t[3 * (k - 1) + 2];
        assert seps[1..][k - 1] == seps[k];
      }
      assert r[0..2] == groups[0];
    }
  }

  lemma DateGroups(v: string, yearPrefix: string, groups: seq<string>)
    requires |groups| == 6 && forall k :: 0 <= k < 6 ==> groups[k] == Slice(v, 2 * k, 2 * k + 2)
    ensures var r := yearPrefix + Joined(groups, DATE_SEPARATORS);
      && (|v| >= 12 ==> |r| == |yearPrefix| + 17)
      && (|v| >= 12 ==> forall k :: 0 <= k < 6 ==>
           r[|yearPrefix| + 3 * k..|yearPrefix| + 3 * k + 2] == v[2 * k..2 * k + 2])
      && (|v| >= 12 ==> forall k :: 0 <= k < 5 ==> r[|yearPrefix| + 3 * k + 2] == DATE_SEPARATORS[k])
  {
    if |v| >= 12 {
      forall k | 0 <= k < 6
        ensures groups[k] == v[2 * k..2 * k + 2]
      {
        SliceRange(v, 2 * k, 2 * k + 2);
      }
      JoinedPairs(groups, DATE_SEPARATORS);
      var n := |yearPrefix|;
      var t := Joined(groups, DATE_SEPARATORS);
      var r := yearPrefix + t;
      forall k | 0 <= k < 6
        ensures r[n + 3 * k..n + 3 * k + 2] == v[2 * k..2 * k + 2]
      {
        assert r[n + 3 * k..n + 3 * k + 2] == t[3 * k..3 * k + 2];
      }
      forall k | 0 <= k < 5
        ensures r[n + 3 * k + 2] == DATE_SEPARATORS[k]
      {
        assert r[n + 3 * k + 2] == t[3 * k + 2];
      }
    }
  }

  /**
   * The formatter of one field applied to its raw characters. Each
   * formatter yields its own kind of value; the bit string has at least
   * 32 characters, and the two-way choices yield one of their two texts.
   */
  function Format(t: Transform, v: string, yearPrefix: string): (r: Value)
    ensures r.Str? <==> t.Keep? || t.Choose? || t.BitString? || t.InOut?
    ensures r.Num? <==> t.HexInt? || t.HiLo100?
    ensures r.Flag? <==> t.Equals?
    ensures r.Pair? <==> t.HexPair?
    ensures r.Stop? <==> t.StopKind?
    ensures r.Date? <==> t.DateText?
    ensures !r.Real? && !r.Record?
    ensures t.Keep? ==> r.s == v
    ensures t.BitString? ==> |r.s| >= 32
    ensures t.Choose? ==> r.s == t.yes || r.s == t.no
    ensures t.InOut? ==> r.s == "in" || r.s == "out"
  {
    match t
    case Keep => Str(v)
    case Equals(code) => Flag(v == code)
    case Choose(code, yes, no) => Str(if v == code then yes else no)
    case HexInt => Num(ParseHex(v))
    case HexPair => Pair(ParseHex(Slice(v, 0, 2)), ParseHex(Slice(v, 2, |v|)))
    case HiLo100 => Num(Hundreds(ParseHex(Slice(v, 0, 2)), ParseHex(Slice(v, 2, |v|))))
    case DateText => Date(DateTextOf(v, yearPrefix))
    case BitString =>
      var p := ParseHex(v);
      Str(PadLeft(if p.Some? then Bin(p.value) else "NaN", 32, '0'))
    case StopKind => StopOf(ParseHex(v))
    case InOut => Str(if ParseHex(v) == Some(0) then "in" else "out")
  }

  /**
   * `hi * 100 + lo` on two parsed numbers, NaN when either one is NaN. A low
   * part below 100 can be read back from the result: the hundreds are `hi`
   * and the rest is `lo`.
   */
  function Hundreds(hi: Option<nat>, lo: Option<nat>): (r: Option<nat>)
    ensures r.Some? <==> hi.Some? && lo.Some?
    ensures r.Some? ==> r.value == hi.value * 100 + lo.value
    ensures r.Some? && lo.value < 100 ==> r.value / 100 == hi.value && r.value % 100 == lo.value
  {
    if hi.Some? && lo.Some? then Some(hi.value * 100 + lo.value) else None
  }

  /** The formatter of each transform, with the year the date fields take. */
  function Formatter(yearPrefix: string): (Transform, string) -> Value {
    (t, v) => Format(t, v, yearPrefix)
  }

  /**
   * The `for .. of` loop of `distill` from the field `table[i]` on, with
   * the fields before it having taken the first `off` characters of `s`:
   * each field takes the next `width` characters (fewer, once the text
   * runs out) and passes them through its formatter `fmt`, and a name
   * already present is an error.
   */
  function Fields(s: string, table: Table, i: nat, off: nat, acc: map<string, Value>, fmt: (Transform, string) -> Value)
    : (r: Result<map<string, Value>, DecodeError>)
    requires i <= |table|
    ensures r.Failure? ==> r.error.DuplicateField?
    decreases |table| - i
  {
    if i == |table| then Success(acc)
    else
      var e := table[i];
      var value := fmt(e.transform, Slice(s, off, off + e.width));
      if e.name in acc then Failure(DuplicateField(e.name))
      else Fields(s, table, i + 1, off + e.width, acc[e.name := value], fmt)
  }

  /** A successful decoding holds the fields present before and those of the table. */
  lemma {:induction false} FieldsKeys(s: string, table: Table, i: nat, off: nat, acc: map<string, Value>, fmt: (Transform, string) -> Value)
    requires i <= |table|
    ensures Fields(s, table, i, off, acc, fmt).Success?
      ==> Fields(s, table, i, off, acc, fmt).value.Keys == acc.Keys + NamesFrom(table, i)
    decreases |table| - i
  {
    if i < |table| {
      var e := table[i];
      var acc' := acc[e.name := fmt(e.transform, Slice(s, off, off + e.width))];
      if e.name !in acc {
        FieldsKeys(s, table, i + 1, off + e.width, acc', fmt);
      }
    }
  }

  /** One turn of the loop: the next field is a duplicate, or is added and the rest follow. */
  lemma FieldsStep(s: string, table: Table, i: nat, off: nat, acc: map<string, Value>, fmt: (Transform, string) -> Value)
    requires i < |table|
    ensures table[i].name in acc ==> Fields(s, table, i, off, acc, fmt) == Failure(DuplicateField(table[i].name))
    ensures table[i].name !in acc ==>
      (Fields(s, table, i, off, acc, fmt)
       == Fields(s, table, i + 1, off + table[i].width,
            acc[table[i].name := fmt(table[i].transform, Slice(s, off, off + table[i].width))], fmt))
  {
  }

  /** The number of decimal digits of `n`, as `String(n)` writes it. */
  function Digits(n: nat): (d: nat)
    ensures d >= 1 && n < Pow(10, d)
  {
    if n < 10 then 1 else Digits(n / 10) + 1
  }

  lemma RatioBelowOne(a: real, b: real)
    requires 0.0 <= a < b
    ensures 0.0 <= a / b < 1.0
  {
    assert a / b * b == a;
  }

  /** The value of ".<digits of n>": n shifted behind the decimal point. */
  function Fraction(n: nat): (x: real)
    ensures 0.0 <= x < 1.0
  {
    var p := Pow(10, Digits(n));
    RatioBelowOne(n as real, p as real);
    n as real / p as real
  }

  function Lookup(m: map<string, Value>, k: string): Option<Value> {
    if k in m then Some(m[k]) else None
  }

  /**
   * `parseInt(p[0]) + (p[1] + '.' + f) / 60`: degrees plus minutes, where
   * the division turns the text into a number and any NaN part, or a
   * missing fraction ("undefined"), makes the whole NaN.
   */
  function Degrees(p: Option<Value>, f: Option<Value>): (r: Value)
    ensures r.Real?
    ensures r.r.Some? <==> (p.Some? && p.value.Pair? && p.value.first.Some? && p.value.second.Some?
      && f.Some? && f.value.Num? && f.value.n.Some?)
  {
    if p.Some? && p.value.Pair? && p.value.first.Some? && p.value.second.Some?
      && f.Some? && f.value.Num? && f.value.n.Some?
    then
      Real(Some(p.value.first.value as real + (p.value.second.value as real + Fraction(f.value.n.value)) / 60.0))
    else Real(None)
  }

  /**
   * `parseFloat(a + '.' + b)`: parseFloat reads the longest number at the
   * front, so a NaN or missing `b` leaves just `a`, and a NaN `a` is NaN.
   */
  function Decimal(a: Option<Value>, b: Option<Value>): (r: Value)
    ensures r.Real?
    ensures r.r.Some? <==> a.Some? && a.value.Num? && a.value.n.Some?
  {
    if a.Some? && a.value.Num? && a.value.n.Some? then
      if b.Some? && b.value.Num? && b.value.n.Some? then
        Real(Some(a.value.n.value as real + Fraction(b.value.n.value)))
      else Real(Some(a.value.n.value as real))
    else Real(None)
  }

  /** The names of the composite fields. */
  const DERIVED_NAMES := {"latitude", "longitude", "direction", "mileage", "stopDistance"}

  /** How a composite is built from its two parts. */
  datatype Combine = InDegrees | AsDecimal

  /** The value a composite takes from its two parts. */
  function Combined(m: map<string, Value>, first: string, second: string, how: Combine): Value {
    match how
    case InDegrees => Degrees(Lookup(m, first), Lookup(m, second))
    case AsDecimal => Decimal(Lookup(m, first), Lookup(m, second))
  }

  /** One `if (first in result) result[name] = ..` block after the loop. */
  function WithComposite(m: map<string, Value>, name: string, first: string, second: string, how: Combine)
    : map<string, Value>
  {
    if first in m then m[name := Combined(m, first, second, how)] else m
  }

  /**
   * The five blocks after the loop, in order, each adding its composite
   * when its first part is present. Only the composites' names change.
   */
  function Composites(m: map<string, Value>): (r: map<string, Value>)
    ensures m.Keys <= r.Keys <= m.Keys + DERIVED_NAMES
    ensures forall k :: k in m && k !in DERIVED_NAMES ==> r[k] == m[k]
  {
    var m1 := WithComposite(m, "latitude", "latitude1", "latitude2", InDegrees);
    var m2 := WithComposite(m1, "longitude", "longitude1", "longitude2", InDegrees);
    var m3 := WithComposite(m2, "direction", "direction1", "direction2", AsDecimal);
    var m4 := WithComposite(m3, "mileage", "mileage1", "mileage2", AsDecimal);
    WithComposite(m4, "stopDistance", "stopDistance1", "stopDistance2", AsDecimal)
  }

  /** The composites leave `statusRaw` as the loop left it. */
  lemma StatusRawKept(m: map<string, Value>)
    ensures STATUS_RAW in Composites(m) <==> STATUS_RAW in m
    ensures STATUS_RAW in m ==> Composites(m)[STATUS_RAW] == m[STATUS_RAW]
  {
    assert STATUS_RAW !in DERIVED_NAMES;
  }

  lemma StatusTableNames()
    ensures STATUS_RAW !in Names(STATUS_TABLE)
  {
    NotNamedFrom(STATUS_TABLE, STATUS_RAW, 0);
  }

  /** A map holding at least the names of a table holds every field's name. */
  lemma KeysKept(table: Table, m: map<string, Value>, c: map<string, Value>)
    requires m.Keys == {} + NamesFrom(table, 0) && m.Keys <= c.Keys
    ensures forall j :: 0 <= j < |table| ==> table[j].name in c
  {
    forall j | 0 <= j < |table|
      ensures table[j].name in m
    {
      NamesFromIndex(table, 0, table[j].name);
    }
  }

  /** A map with no more than a table's names and the composites holds nothing else. */
  lemma KeysOnly(table: Table, m: map<string, Value>, c: map<string, Value>)
    requires m.Keys == {} + NamesFrom(table, 0) && c.Keys <= m.Keys + DERIVED_NAMES
    ensures forall k :: k in c ==> k in DERIVED_NAMES || exists j :: 0 <= j < |table| && table[j].name == k
  {
    forall k | k in c && k !in DERIVED_NAMES
      ensures exists j :: 0 <= j < |table| && table[j].name == k
    {
      NamesFromIndex(table, 0, k);
    }
  }

  /** After the composites, `statusRaw` is a key exactly when a field of the table is named so. */
  lemma CompositesStatus(table: Table, m: map<string, Value>)
    requires m.Keys == {} + NamesFrom(table, 0)
    ensures STATUS_RAW in Composites(m) <==> exists j :: 0 <= j < |table| && table[j].name == STATUS_RAW
    ensures STATUS_RAW in Composites(m) ==> Composites(m)[STATUS_RAW] == m[STATUS_RAW]
  {
    StatusRawKept(m);
    NamesFromIndex(table, 0, STATUS_RAW);
  }

  /**
   * `distill(str, table)`: the fields, the composites, and, when there is
   * a `statusRaw` field, its bits decoded by the status table.
   */
  function Decode(s: string, table: Table, yearPrefix: string): (r: Result<map<string, Value>, DecodeError>)
    ensures r.Success? ==> forall j :: 0 <= j < |table| ==> table[j].name in r.value
    ensures r.Success? ==> forall k :: k in r.value ==>
      k in DERIVED_NAMES || k == "status" || exists j :: 0 <= j < |table| && table[j].name == k
    ensures r.Success? && (exists j :: 0 <= j < |table| && table[j].name == STATUS_RAW) ==>
      "status" in r.value && r.value["status"].Record?
    ensures r.Failure? && r.error.StatusNotText? ==> exists j :: 0 <= j < |table| && table[j].name == STATUS_RAW
    decreases if STATUS_RAW in Names(table) then 1 else 0
  {
    match Fields(s, table, 0, 0, map[], Formatter(yearPrefix))
    case Failure(e) => Failure(e)
    case Success(m) =>
      FieldsKeys(s, table, 0, 0, map[], Formatter(yearPrefix));
      CompositesStatus(table, m);
      var c := Composites(m);
      KeysKept(table, m, c);
      KeysOnly(table, m, c);
      if STATUS_RAW !in c then Success(c)
      else if !c[STATUS_RAW].Str? then Failure(StatusNotText)
      else
        StatusTableNames();
        match Decode(c[STATUS_RAW].s, STATUS_TABLE, yearPrefix)
        case Failure(e) => Failure(e)
        case Success(status) => Success(c["status" := Record(status)])
  }

  /**
   * The loop of `distill`: each field cut from the front of the rest of
   * the text and handed to its formatter.
   */
  method DistillFields(str: string, table: Table, fmt: (Transform, string) -> Value)
    returns (r: Result<map<string, Value>, DecodeError>)
    ensures r == Fields(str, table, 0, 0, map[], fmt)
  {
    var result: map<string, Value> := map[];
    var rest := str;
    ghost var off: nat := 0;
    for i := 0 to |table|
      invariant rest == Slice(str, off, |str|)
      invariant Fields(str, table, i, off, result, fmt) == Fields(str, table, 0, 0, map[], fmt)
    {
      var entry := table[i];
      SliceDrop(str, off, 0, entry.width);
      SliceTail(str, off, entry.width);
      var value := Slice(rest, 0, entry.width);
      assert value == Slice(str, off, off + entry.width);
      FieldsStep(str, table, i, off, result, fmt);
      rest := Slice(rest, entry.width, |rest|);
      off := off + entry.width;
      var formatted := fmt(entry.transform, value);
      if entry.name in result {
        return Failure(DuplicateField(entry.name));
      }
      result := result[entry.name := formatted];
    }
    r := Success(result);
  }

  /** `distill` as the source writes it: the loop, the composites, then the status bits. */
  method Distill(str: string, table: Table, yearPrefix: string) returns (r: Result<map<string, Value>, DecodeError>)
    ensures r == Decode(str, table, yearPrefix)
    decreases if STATUS_RAW in Names(table) then 1 else 0
  {
    r := DistillFields(str, table, Formatter(yearPrefix));
    if r.Failure? {
      return;
    }
    FieldsKeys(str, table, 0, 0, map[], Formatter(yearPrefix));
    StatusRawKept(r.value);
    var result := Composites(r.value);
    if STATUS_RAW in result {
      if !result[STATUS_RAW].Str? {
        return Failure(StatusNotText);
      }
      StatusTableNames();
      var status := Distill(result[STATUS_RAW].s, STATUS_TABLE, yearPrefix);
      if status.Failure? {
        return Failure(status.error);
      }
      result := result["status" := Record(status.value)];
    }
    r := Success(result);
  }

  const CMD_START := 4     // the command id is byte 2
  const CONTENT_START := 18   // the content starts at byte 9
  const TRAILER := 4       // checksum and terminator

  /** The table `frameContentHandle` holds for a command id. */
  function TableFor(cmdId: string): (r: Option<Table>)
    ensures r.Some? <==> cmdId == "41" || cmdId == "79"
    ensures r.Some? ==> |COMMON_CONTENT| <= |r.value| && r.value[..|COMMON_CONTENT|] == COMMON_CONTENT
  {
    if cmdId == "41" then Some(TABLE_41)
    else if cmdId == "79" then Some(TABLE_79)
    else None
  }

  /** `frame.slice(18, -4)`: a negative end counts from the back, floored at 0. */
  function Content(frame: string): (c: string)
    ensures |frame| >= CONTENT_START + TRAILER ==> c == frame[CONTENT_START..|frame| - TRAILER]
    ensures |frame| < CONTENT_START + TRAILER ==> c == []
  {
    SliceRange(frame, CONTENT_START, Max(|frame| - TRAILER, 0));
    Slice(frame, CONTENT_START, Max(|frame| - TRAILER, 0))
  }

  /** `frameHandle`: `None` (null) for a command without a table. */
  function FrameHandle(frame: string, yearPrefix: string): (r: Option<Result<map<string, Value>, DecodeError>>)
    ensures r.Some? <==> Slice(frame, CMD_START, CMD_START + 2) in {"41", "79"}
  {
    match TableFor(Slice(frame, CMD_START, CMD_START + 2))
    case None => None
    case Some(table) => Some(Decode(Content(frame), table, yearPrefix))
  }
}
