/**
 * Properties of the field decoder: where each field is read from, when
 * decoding fails and with which field, that the command tables never
 * fail, and what the decoded records hold.
 */
module ResolverProperties {
  import opened Wrappers
  import opened HexText
  import opened FrameResolver

  /** The characters taken by the fields `table[i..j]`. */
  function Span(table: Table, i: nat, j: nat): nat
    requires i <= j <= |table|
    decreases j
  {
    if j == i then 0 else Span(table, i, j - 1) + table[j - 1].width
  }

  /** Where field `j` starts. */
  function Offset(table: Table, j: nat): nat
    requires j <= |table|
  {
    Span(table, 0, j)
  }

  lemma {:induction false} SpanHead(table: Table, i: nat, j: nat)
    requires i < j <= |table|
    ensures Span(table, i, j) == table[i].width + Span(table, i + 1, j)
    decreases j
  {
    if j > i + 1 {
      SpanHead(table, i, j - 1);
    }
  }

  lemma {:induction false} SpanPrefix(a: Table, b: Table, i: nat, j: nat)
    requires i <= j <= |a|
    ensures Span(a + b, i, j) == Span(a, i, j)
    decreases j
  {
    if j > i {
      SpanPrefix(a, b, i, j - 1);
    }
  }

  lemma {:induction false} SpanUniform(table: Table, w: nat, i: nat, j: nat)
    requires i <= j <= |table|
    requires forall k :: 0 <= k < |table| ==> table[k].width == w
    ensures Span(table, i, j) == (j - i) * w
    decreases j
  {
    if j > i {
      SpanUniform(table, w, i, j - 1);
    }
  }

  /** A table's offsets are the running sums of its widths. */
  lemma {:induction false} SpanSums(table: Table, sums: seq<nat>, k: nat)
    requires |sums| == |table| + 1 && sums[0] == 0
    requires forall j :: 0 <= j < |table| ==> sums[j + 1] == sums[j] + table[j].width
    requires k <= |table|
    ensures Span(table, 0, k) == sums[k]
  {
    if k > 0 {
      SpanSums(table, sums, k - 1);
    }
  }

  const COMMON_OFFSETS: seq<nat> := [0, 4, 6, 8, 10, 14, 18, 20, 24, 28, 32, 34, 38, 40, 44, 46, 58, 66, 70, 74, 76]

  /**
   * The common fields take 76 hex characters, with `statusRaw`, the
   * seventeenth, at characters 58 to 66.
   */
  lemma CommonWidths()
    ensures |COMMON_CONTENT| == 20 && Span(COMMON_CONTENT, 0, 20) == 76
    ensures Offset(COMMON_CONTENT, 16) == 58 && Offset(COMMON_CONTENT, 17) == 66
  {
    SpanSums(COMMON_CONTENT, COMMON_OFFSETS, 16);
    SpanSums(COMMON_CONTENT, COMMON_OFFSETS, 17);
    SpanSums(COMMON_CONTENT, COMMON_OFFSETS, 20);
  }

  /**
   * The content of a real-time report (0x41) takes 80 hex characters and
   * that of a stop report (0x79) 96; both read `statusRaw` at character 58.
   */
  lemma CommandWidths()
    ensures |TABLE_41| == 22 && Span(TABLE_41, 0, 22) == 80 && Offset(TABLE_41, 16) == 58
    ensures |TABLE_79| == 25 && Span(TABLE_79, 0, 25) == 96 && Offset(TABLE_79, 16) == 58
    ensures Offset(TABLE_79, 20) == 76 && Offset(TABLE_79, 21) == 78
  {
    CommonWidths();
    SpanPrefix(COMMON_CONTENT, EXTRA_41, 0, 20);
    SpanPrefix(COMMON_CONTENT, EXTRA_41, 0, 16);
    assert TABLE_41[20] == EXTRA_41[0] && TABLE_41[21] == EXTRA_41[1];
    assert Span(TABLE_41, 0, 21) == 78;
    SpanPrefix(COMMON_CONTENT, EXTRA_79, 0, 20);
    SpanPrefix(COMMON_CONTENT, EXTRA_79, 0, 16);
    assert TABLE_79[20] == EXTRA_79[0] && TABLE_79[21] == EXTRA_79[1] && TABLE_79[22] == EXTRA_79[2];
    assert TABLE_79[23] == EXTRA_79[3] && TABLE_79[24] == EXTRA_79[4];
    assert Span(TABLE_79, 0, 21) == 78;
    assert Span(TABLE_79, 0, 22) == 80;
    assert Span(TABLE_79, 0, 23) == 84;
    assert Span(TABLE_79, 0, 24) == 88;
  }

  /** Field `j` repeats a name: one already present, or that of a field from `i` on before it. */
  predicate Repeats(table: Table, seen: set<string>, i: nat, j: nat)
    requires i <= j < |table|
  {
    table[j].name in seen || exists k :: i <= k < j && table[k].name == table[j].name
  }

  lemma RepeatsNext(table: Table, seen: set<string>, i: nat, j: nat)
    requires i < j < |table|
    ensures Repeats(table, seen, i, j) <==> Repeats(table, seen + {table[i].name}, i + 1, j)
  {
  }

  /** No field from `i` on repeats a name. */
  predicate NoRepeats(table: Table, seen: set<string>, i: nat)
    requires i <= |table|
  {
    forall j :: i <= j < |table| ==> !Repeats(table, seen, i, j)
  }

  /** No repeats from `i` on: field `i` is new, and none repeats from `i + 1` on once it is seen. */
  lemma NoRepeatsNext(table: Table, seen: set<string>, i: nat)
    requires i < |table|
    ensures NoRepeats(table, seen, i)
      <==> table[i].name !in seen && NoRepeats(table, seen + {table[i].name}, i + 1)
  {
    var seen', next := seen + {table[i].name}, i + 1;
    if NoRepeats(table, seen, i) {
      assert !Repeats(table, seen, i, i);
      forall j | next <= j < |table|
        ensures !Repeats(table, seen', next, j)
      {
        RepeatsNext(table, seen, i, j);
      }
    }
    if table[i].name !in seen && NoRepeats(table, seen', next) {
      forall j | i <= j < |table|
        ensures !Repeats(table, seen, i, j)
      {
        if j > i {
          RepeatsNext(table, seen, i, j);
        }
      }
    }
  }

  /** Decoding fails exactly at the first field whose name repeats, and names it. */
  lemma {:induction false} FieldsFailure(s: string, table: Table, i: nat, off: nat, acc: map<string, Value>,
                                         fmt: (Transform, string) -> Value, j: nat)
    requires i <= j < |table| && Repeats(table, acc.Keys, i, j)
    requires forall k :: i <= k < j ==> !Repeats(table, acc.Keys, i, k)
    ensures Fields(s, table, i, off, acc, fmt) == Failure(DuplicateField(table[j].name))
    decreases j - i
  {
    var e := table[i];
    FieldsStep(s, table, i, off, acc, fmt);
    if j > i {
      assert !Repeats(table, acc.Keys, i, i);
      var acc' := acc[e.name := fmt(e.transform, Slice(s, off, off + e.width))];
      var seen := acc.Keys + {e.name};
      assert acc'.Keys == seen;
      RepeatsNext(table, acc.Keys, i, j);
      var next := i + 1;
      forall k | next <= k < j
        ensures !Repeats(table, seen, next, k)
      {
        RepeatsNext(table, acc.Keys, i, k);
      }
      FieldsFailure(s, table, i + 1, off + e.width, acc', fmt, j);
    }
  }

  /** Decoding the fields succeeds exactly when no field repeats a name. */
  lemma {:induction false} FieldsSuccess(s: string, table: Table, i: nat, off: nat, acc: map<string, Value>,
                                         fmt: (Transform, string) -> Value)
    requires i <= |table|
    ensures Fields(s, table, i, off, acc, fmt).Success? <==> NoRepeats(table, acc.Keys, i)
    decreases |table| - i
  {
    if i < |table| {
      var e := table[i];
      FieldsStep(s, table, i, off, acc, fmt);
      NoRepeatsNext(table, acc.Keys, i);
      if e.name !in acc {
        var acc' := acc[e.name := fmt(e.transform, Slice(s, off, off + e.width))];
        assert acc'.Keys == acc.Keys + {e.name};
        FieldsSuccess(s, table, i + 1, off + e.width, acc', fmt);
      }
    }
  }

  /** Fields already present keep their values when decoding succeeds. */
  lemma {:induction false} FieldsKeep(s: string, table: Table, i: nat, off: nat, acc: map<string, Value>,
                                      fmt: (Transform, string) -> Value, k: string)
    requires i <= |table| && Fields(s, table, i, off, acc, fmt).Success? && k in acc
    ensures k in Fields(s, table, i, off, acc, fmt).value
    ensures Fields(s, table, i, off, acc, fmt).value[k] == acc[k]
    decreases |table| - i
  {
    if i < |table| {
      var e := table[i];
      FieldsStep(s, table, i, off, acc, fmt);
      var acc' := acc[e.name := fmt(e.transform, Slice(s, off, off + e.width))];
      FieldsKeep(s, table, i + 1, off + e.width, acc', fmt, k);
    }
  }

  /**
   * Each field of a successful decoding is its formatter applied to the
   * characters from its offset on, as many as its width (fewer where the
   * text is short).
   */
  lemma {:induction false} FieldsRead(s: string, table: Table, i: nat, off: nat, acc: map<string, Value>,
                                      fmt: (Transform, string) -> Value, j: nat)
    requires i <= j < |table| && Fields(s, table, i, off, acc, fmt).Success?
    ensures table[j].name in Fields(s, table, i, off, acc, fmt).value
    ensures Fields(s, table, i, off, acc, fmt).value[table[j].name]
      == fmt(table[j].transform, Slice(s, off + Span(table, i, j), off + Span(table, i, j) + table[j].width))
    decreases j - i
  {
    var e := table[i];
    FieldsStep(s, table, i, off, acc, fmt);
    assert e.name !in acc;
    var off' := off + e.width;
    var acc' := acc[e.name := fmt(e.transform, Slice(s, off, off'))];
    var r := Fields(s, table, i + 1, off', acc', fmt);
    assert Fields(s, table, i, off, acc, fmt) == r;
    if j == i {
      FieldsKeep(s, table, i + 1, off', acc', fmt, e.name);
      assert r.value[e.name] == fmt(e.transform, Slice(s, off, off'));
      assert Span(table, i, j) == 0;
    } else {
      FieldsRead(s, table, i + 1, off', acc', fmt, j);
      SpanHead(table, i, j);
      var at := off' + Span(table, i + 1, j);
      assert r.value[table[j].name] == fmt(table[j].transform, Slice(s, at, at + table[j].width));
      assert off + Span(table, i, j) == at;
    }
  }

  predicate DistinctNames(table: Table) {
    forall i, j :: 0 <= i < j < |table| ==> table[i].name != table[j].name
  }

  /** `distill` throws on a table exactly when two of its fields share a name. */
  lemma DistinctSucceeds(s: string, table: Table, fmt: (Transform, string) -> Value)
    ensures Fields(s, table, 0, 0, map[], fmt).Success? <==> DistinctNames(table)
  {
    FieldsSuccess(s, table, 0, 0, map[], fmt);
    var empty: map<string, Value> := map[];
    assert empty.Keys == {};
    if !DistinctNames(table) {
      var i, j :| 0 <= i < j < |table| && table[i].name == table[j].name;
      assert Repeats(table, {}, 0, j);
    } else {
      assert NoRepeats(table, {}, 0);
    }
  }

  /** Two tables with distinct names and no name in common concatenate to one with distinct names. */
  lemma DistinctConcat(a: Table, b: Table)
    requires DistinctNames(a) && DistinctNames(b)
    requires forall i, j :: 0 <= i < |a| && 0 <= j < |b| ==> a[i].name != b[j].name
    ensures DistinctNames(a + b)
  {
    var t := a + b;
    forall i, j | 0 <= i < j < |t|
      ensures t[i].name != t[j].name
    {
      if j < |a| {
        assert t[i] == a[i] && t[j] == a[j];
      } else if i < |a| {
        assert t[i] == a[i] && t[j] == b[j - |a|];
      } else {
        assert t[i] == b[i - |a|] && t[j] == b[j - |a|];
      }
    }
  }

  // The literal tables are checked a few rows at a time: each block says
  // that the rows from `lo` to `hi` differ from every later row.

  predicate RowsDistinct(table: Table, lo: nat, hi: nat) {
    forall i, j :: lo <= i < hi && i < j < |table| ==> table[i].name != table[j].name
  }

  lemma StatusRows0() ensures RowsDistinct(STATUS_TABLE, 0, 2) { }
  lemma StatusRows2() ensures RowsDistinct(STATUS_TABLE, 2, 4) { }
  lemma StatusRows4() ensures RowsDistinct(STATUS_TABLE, 4, 6) { }
  lemma StatusRows6() ensures RowsDistinct(STATUS_TABLE, 6, 8) { }
  lemma StatusRows8() ensures RowsDistinct(STATUS_TABLE, 8, 10) { }
  lemma StatusRows10() ensures RowsDistinct(STATUS_TABLE, 10, 12) { }
  lemma StatusRows12() ensures RowsDistinct(STATUS_TABLE, 12, 14) { }
  lemma StatusRows14() ensures RowsDistinct(STATUS_TABLE, 14, 16) { }
  lemma StatusRows16() ensures RowsDistinct(STATUS_TABLE, 16, 18) { }
  lemma StatusRows18() ensures RowsDistinct(STATUS_TABLE, 18, 20) { }
  lemma StatusRows20() ensures RowsDistinct(STATUS_TABLE, 20, 22) { }
  lemma StatusRows22() ensures RowsDistinct(STATUS_TABLE, 22, 23) { }

  lemma CommonRows0() ensures RowsDistinct(COMMON_CONTENT, 0, 2) { }
  lemma CommonRows2() ensures RowsDistinct(COMMON_CONTENT, 2, 4) { }
  lemma CommonRows4() ensures RowsDistinct(COMMON_CONTENT, 4, 6) { }
  lemma CommonRows6() ensures RowsDistinct(COMMON_CONTENT, 6, 8) { }
  lemma CommonRows8() ensures RowsDistinct(COMMON_CONTENT, 8, 10) { }
  lemma CommonRows10() ensures RowsDistinct(COMMON_CONTENT, 10, 12) { }
  lemma CommonRows12() ensures RowsDistinct(COMMON_CONTENT, 12, 14) { }
  lemma CommonRows14() ensures RowsDistinct(COMMON_CONTENT, 14, 16) { }
  lemma CommonRows16() ensures RowsDistinct(COMMON_CONTENT, 16, 18) { }
  lemma CommonRows18() ensures RowsDistinct(COMMON_CONTENT, 18, 20) { }

  /** Two adjacent blocks of rows make one. */
  lemma RowsJoin(table: Table, a: nat, b: nat, c: nat)
    requires a <= b <= c
    requires RowsDistinct(table, a, b) && RowsDistinct(table, b, c)
    ensures RowsDistinct(table, a, c)
  {
  }

  /** The 23 status bits have 23 different names. */
  lemma StatusDistinct()
    ensures DistinctNames(STATUS_TABLE)
  {
    StatusRows0();
    StatusRows2(); RowsJoin(STATUS_TABLE, 0, 2, 4);
    StatusRows4(); RowsJoin(STATUS_TABLE, 0, 4, 6);
    StatusRows6(); RowsJoin(STATUS_TABLE, 0, 6, 8);
    StatusRows8(); RowsJoin(STATUS_TABLE, 0, 8, 10);
    StatusRows10(); RowsJoin(STATUS_TABLE, 0, 10, 12);
    StatusRows12(); RowsJoin(STATUS_TABLE, 0, 12, 14);
    StatusRows14(); RowsJoin(STATUS_TABLE, 0, 14, 16);
    StatusRows16(); RowsJoin(STATUS_TABLE, 0, 16, 18);
    StatusRows18(); RowsJoin(STATUS_TABLE, 0, 18, 20);
    StatusRows20(); RowsJoin(STATUS_TABLE, 0, 20, 22);
    StatusRows22(); RowsJoin(STATUS_TABLE, 0, 22, 23);
  }

  lemma CommonDistinct()
    ensures DistinctNames(COMMON_CONTENT)
  {
    CommonRows0();
    CommonRows2(); RowsJoin(COMMON_CONTENT, 0, 2, 4);
    CommonRows4(); RowsJoin(COMMON_CONTENT, 0, 4, 6);
    CommonRows6(); RowsJoin(COMMON_CONTENT, 0, 6, 8);
    CommonRows8(); RowsJoin(COMMON_CONTENT, 0, 8, 10);
    CommonRows10(); RowsJoin(COMMON_CONTENT, 0, 10, 12);
    CommonRows12(); RowsJoin(COMMON_CONTENT, 0, 12, 14);
    CommonRows14(); RowsJoin(COMMON_CONTENT, 0, 14, 16);
    CommonRows16(); RowsJoin(COMMON_CONTENT, 0, 16, 18);
    CommonRows18(); RowsJoin(COMMON_CONTENT, 0, 18, 20);
  }

  lemma Cross41()
    ensures forall i, j :: 0 <= i < |COMMON_CONTENT| && 0 <= j < |EXTRA_41| ==> COMMON_CONTENT[i].name != EXTRA_41[j].name
  {
  }

  lemma Cross79()
    ensures forall i, j :: 0 <= i < |COMMON_CONTENT| && 0 <= j < |EXTRA_79| ==> COMMON_CONTENT[i].name != EXTRA_79[j].name
  {
  }

  /** The tables of both commands name every field once, so `distill` never throws a duplicate. */
  lemma CommandTablesDistinct()
    ensures DistinctNames(TABLE_41) && DistinctNames(TABLE_79)
  {
    CommonDistinct();
    Cross41();
    Cross79();
    assert DistinctNames(EXTRA_41);
    assert DistinctNames(EXTRA_79);
    DistinctConcat(COMMON_CONTENT, EXTRA_41);
    DistinctConcat(COMMON_CONTENT, EXTRA_79);
  }

  /** Bin(n) has no more digits than the bits n needs. */
  lemma {:induction false} BinLength(n: nat, k: nat)
    requires n < Pow(2, k)
    ensures |Bin(n)| <= Max(k, 1)
  {
    if n >= 2 {
      BinLength(n / 2, k - 1);
    }
  }

  /** Leading zeros do not change the value of a bit string. */
  lemma {:induction false} LeadingZeros(t: string, z: nat)
    requires IsBits(t) && z <= |t|
    requires forall k :: 0 <= k < z ==> t[k] == '0'
    ensures BitsValue(t) == BitsValue(t[z..])
    decreases |t|
  {
    if t != [] {
      var p := t[..|t| - 1];
      if z < |t| {
        LeadingZeros(p, z);
        assert t[z..][..|t[z..]| - 1] == p[z..];
      } else {
        LeadingZeros(p, z - 1);
        assert p[z - 1..] == [];
      }
    }
  }

  /** Bin's digits padded to `len` with zeros keep their value. */
  lemma PadBits(n: nat, len: nat)
    ensures IsBits(PadLeft(Bin(n), len, '0')) && BitsValue(PadLeft(Bin(n), len, '0')) == n
  {
    var d := Bin(n);
    var t := PadLeft(d, len, '0');
    LeadingZeros(t, |t| - |d|);
  }

  lemma {:induction false} PowSixteen(k: nat)
    ensures Pow(16, k) == Pow(2, 4 * k)
  {
    if k > 0 {
      PowSixteen(k - 1);
      var e := 4 * k - 4;
      assert Pow(2, e + 4) == 2 * Pow(2, e + 3);
      assert Pow(2, e + 3) == 2 * Pow(2, e + 2);
      assert Pow(2, e + 2) == 2 * Pow(2, e + 1);
      assert Pow(2, e + 1) == 2 * Pow(2, e);
    }
  }

  lemma DivUnique(n: int, d: int, q: int, r: int)
    requires d > 0 && 0 <= r < d && n == q * d + r
    ensures n / d == q
  {
    var q', r' := n / d, n % d;
    assert n == q' * d + r' && 0 <= r' < d;
    assert (q - q') * d == r' - r;
    if q > q' {
      AtLeastOnce(q - q', d);
    } else if q < q' {
      AtLeastOnce(q' - q, d);
    }
  }

  lemma AtLeastOnce(a: int, d: int)
    requires a >= 1 && d > 0
    ensures a * d >= d
  {
    assert a * d == (a - 1) * d + d;
  }

  lemma HalveDiv(x: nat, c: nat, y: nat)
    requires c < 2 && y > 0
    ensures (2 * x + c) / (2 * y) == x / y
  {
    var q, r := x / y, x % y;
    assert x == q * y + r;
    assert q * (2 * y) == 2 * (q * y);
    DivUnique(2 * x + c, 2 * y, q, 2 * r + c);
  }

  /** Character k of a bit string is the bit of weight 2^(|b| - 1 - k) of its value. */
  lemma {:induction false} BitAt(b: string, k: nat)
    requires IsBits(b) && k < |b|
    ensures b[k] == '1' <==> BitsValue(b) / Pow(2, |b| - 1 - k) % 2 == 1
    decreases |b|
  {
    var p := b[..|b| - 1];
    var c := if b[|b| - 1] == '1' then 1 else 0;
    var v, pv := BitsValue(b), BitsValue(p);
    assert v == 2 * pv + c;
    if k == |b| - 1 {
      assert Pow(2, 0) == 1;
      LowBit(pv, c);
    } else {
      var e := |b| - 1 - k;
      var w := Pow(2, e - 1);
      assert Pow(2, e) == 2 * w;
      BitAt(p, k);
      HalveDiv(pv, c, w);
      assert p[k] == b[k];
    }
  }

  lemma LowBit(x: nat, c: nat)
    requires c < 2
    ensures (2 * x + c) / 1 % 2 == c
  {
  }

  /** The stop-type field reads its two hex digits as the character code. */
  lemma StopByte(b: Byte, y: string)
    ensures Format(StopKind, HexByte(b), y) == StopOf(Some(b))
  {
    HexNatOfByte(b);
  }

  /** The five stop types by their character codes. */
  lemma StopKinds()
    ensures StopOf(Some(0x46)) == Stop(Some("dock"), Some("停靠站"))
    ensures StopOf(Some(0x42)) == Stop(Some("first"), Some("起点站"))
    ensures StopOf(Some(0x66)) == Stop(Some("end"), Some("终点站"))
    ensures StopOf(Some(0x49)) == Stop(Some("park"), Some("停车场"))
    ensures StopOf(Some(0x69)) == Stop(Some("gas"), Some("加油站"))
  {
  }

  /**
   * `String(n)` has `Digits(n)` characters: the count is the least power
   * of ten above `n`, so the text has no leading zero.
   */
  lemma {:induction false} DigitsLeading(n: nat)
    ensures n < Pow(10, Digits(n))
    ensures n > 0 ==> Pow(10, Digits(n) - 1) <= n
  {
    if n >= 10 {
      DigitsLeading(n / 10);
    }
  }

  /**
   * `parseFloat(a + '.' + b)` of two numbers: the integer part is `a` and
   * the fraction holds the digits of `b`; a NaN `b` leaves `a`.
   */
  lemma DecimalParts(a: nat, b: Option<nat>)
    ensures Decimal(Some(Num(Some(a))), Some(Num(b))).r.Some?
    ensures var x := Decimal(Some(Num(Some(a))), Some(Num(b))).r.value;
      a as real <= x < a as real + 1.0
      && (b.Some? ==> x == a as real + Fraction(b.value))
      && (b.None? ==> x == a as real)
  {
  }

  /**
   * Degrees and minutes: the coordinate is the degrees plus the minutes,
   * with their fraction, over sixty, so it lies within the minute given.
   */
  lemma DegreesRange(d: nat, m: nat, f: nat)
    ensures Degrees(Some(Pair(Some(d), Some(m))), Some(Num(Some(f)))).r.Some?
    ensures var x := Degrees(Some(Pair(Some(d), Some(m))), Some(Num(Some(f)))).r.value;
      d as real + m as real / 60.0 <= x < d as real + (m as real + 1.0) / 60.0
  {
  }
}
