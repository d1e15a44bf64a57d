/** Rows to columns and mappings to schemas (src/schema.rs). */
module Schema {
  import opened Prelude
  import opened Sql
  import opened ExecPlan
  import opened Paging

  // ----- JSON documents

  type U64 = n: int | 0 <= n < TWO_TO_THE_64

  /** A JSON number as the decoder keeps it: a non-negative integer, a negative one, or a double. */
  datatype Number = PosInt(n: U64) | NegInt(m: I64) | Double(r: real)

  /** Members are listed in iteration order. */
  datatype JsonValue =
    | JNull
    | JBoolean(b: bool)
    | JNumber(number: Number)
    | JString(s: string)
    | JArray(items: seq<JsonValue>)
    | JObject(members: seq<(string, JsonValue)>)

  function Lookup(members: seq<(string, JsonValue)>, name: string): Option<JsonValue> {
    if members == [] then None
    else if members[0].0 == name then Some(members[0].1)
    else Lookup(members[1..], name)
  }

  function Get(v: JsonValue, name: string): Option<JsonValue> {
    if v.JObject? then Lookup(v.members, name) else None
  }

  /** The library conversions: a number as a double, a double as a single, a value as its compact
      text, and a date text as epoch milliseconds. */
  datatype Lib = Lib(toF64: Number -> real, toF32: real -> real, render: JsonValue -> string, parseDate: string -> Option<int>)

  const TWO_TO_THE_53: int := 0x20_0000_0000_0000

  /** What matters of the conversion to a double: a double is itself, an integer up to `2^53` is exact, and
      one too large for `i64` becomes a whole double that is still too large, `2^63` being a double. */
  ghost predicate ConvertsLikeIeee(lib: Lib) {
    && (forall r: real :: lib.toF64(Double(r)) == r)
    && (forall n: U64 :: n <= TWO_TO_THE_53 ==> lib.toF64(PosInt(n)) == n as real)
    && (forall m: I64 :: -TWO_TO_THE_53 <= m <= TWO_TO_THE_53 ==> lib.toF64(NegInt(m)) == m as real)
    && (forall n: U64 :: n >= TWO_TO_THE_63 ==>
          lib.toF64(PosInt(n)) >= TWO_TO_THE_63 as real && IsWhole(lib.toF64(PosInt(n))))
  }

  predicate IsWhole(r: real) {
    r == r.Floor as real
  }

  // ----- Coercions

  datatype IntType = Int8 | Int16 | Int32 | Int64 | UInt8 | UInt16 | UInt32 | UInt64

  function Lowest(t: IntType): int {
    match t
    case Int8 => -0x80
    case Int16 => -0x8000
    case Int32 => -0x8000_0000
    case Int64 => -TWO_TO_THE_63
    case _ => 0
  }

  function Highest(t: IntType): int {
    match t
    case Int8 => 0x7F
    case Int16 => 0x7FFF
    case Int32 => 0x7FFF_FFFF
    case Int64 => TWO_TO_THE_63 - 1
    case UInt8 => 0xFF
    case UInt16 => 0xFFFF
    case UInt32 => 0xFFFF_FFFF
    case UInt64 => TWO_TO_THE_64 - 1
  }

  function AsI64(v: JsonValue): Option<int> {
    match v
    case JNumber(PosInt(n)) => if n < TWO_TO_THE_63 then Some(n) else None
    case JNumber(NegInt(m)) => Some(m)
    case _ => None
  }

  function AsF64(lib: Lib, v: JsonValue): Option<real> {
    if v.JNumber? then Some(lib.toF64(v.number)) else None
  }

  /** Rust's `f as i64`: towards zero, clamped to the range. */
  function CastToI64(r: real): int {
    var n := if r >= 0.0 then r.Floor else -((-r).Floor);
    Max(-TWO_TO_THE_63, Min(n, TWO_TO_THE_63 - 1))
  }

  /** One slot of `int_column`. */
  function CoerceInt(lib: Lib, v: Option<JsonValue>, t: IntType): Option<int> {
    if v.None? then None
    else
      var n := if AsI64(v.value).Some? then AsI64(v.value)
               else match AsF64(lib, v.value)
                 case None => None
                 case Some(f) => if IsWhole(f) then Some(CastToI64(f)) else None;
      if n.Some? && Lowest(t) <= n.value <= Highest(t) then n else None
  }

  function ExactValue(n: Number): real {
    match n case PosInt(k) => k as real case NegInt(m) => m as real case Double(r) => r
  }

  function Width(t: IntType): nat {
    match t
    case Int8 => 8 case UInt8 => 8
    case Int16 => 16 case UInt16 => 16
    case Int32 => 32 case UInt32 => 32
    case Int64 => 64 case UInt64 => 64
  }

  function Pow2(k: nat): int {
    if k == 0 then 1 else 2 * Pow2(k - 1)
  }

  /** The numbers of a two's complement or unsigned integer of that width. */
  predicate InWidth(t: IntType, n: int) {
    if t.Int8? || t.Int16? || t.Int32? || t.Int64? then -Pow2(Width(t) - 1) <= n < Pow2(Width(t) - 1)
    else 0 <= n < Pow2(Width(t))
  }

  lemma InWidthIff(t: IntType, n: int)
    ensures InWidth(t, n) <==> Lowest(t) <= n <= Highest(t)
  {
    Pow2Values();
  }

  lemma Pow2Values()
    ensures Pow2(7) == 0x80 && Pow2(8) == 0x100 && Pow2(15) == 0x8000 && Pow2(16) == 0x1_0000
    ensures Pow2(31) == 0x8000_0000 && Pow2(32) == 0x1_0000_0000
    ensures Pow2(63) == TWO_TO_THE_63 && Pow2(64) == TWO_TO_THE_64
  {
    assert Pow2(8) == 0x100;
    assert Pow2(16) == 0x1_0000;
    assert Pow2(24) == 0x100_0000;
    assert Pow2(32) == 0x1_0000_0000;
    assert Pow2(40) == 0x100_0000_0000;
    assert Pow2(48) == 0x1_0000_0000_0000;
    assert Pow2(56) == 0x100_0000_0000_0000;
  }

  /** What the documentation promises: a whole number that the width holds as itself, anything else null. */
  function ExactOrNull(v: Option<JsonValue>, t: IntType): Option<int> {
    match v
    case Some(JNumber(n)) =>
      var r := ExactValue(n);
      if r == r.Floor as real && InWidth(t, r.Floor) then Some(r.Floor) else None
    case _ => None
  }

  /** A whole number beyond `i64` bound for a 64-bit column that reaches the clamp. */
  predicate Clamps(v: Option<JsonValue>, t: IntType) {
    match v
    case Some(JNumber(n)) =>
      var r := ExactValue(n);
      && r == r.Floor as real
      && ((r >= TWO_TO_THE_63 as real && (t.Int64? || t.UInt64?)) || (r < -TWO_TO_THE_63 as real && t.Int64?))
    case _ => false
  }

  lemma SmallIntegerIsExact(lib: Lib, n: Number, t: IntType)
    requires AsI64(JNumber(n)).Some?
    ensures var v := Some(JNumber(n)); CoerceInt(lib, v, t) == ExactOrNull(v, t) && !Clamps(v, t)
  {
    var k := AsI64(JNumber(n)).value;
    assert ExactValue(n) == k as real && (k as real).Floor == k;
    InWidthIff(t, k);
  }

  lemma LargeIntegerClampsIff(lib: Lib, n: U64, t: IntType)
    requires ConvertsLikeIeee(lib) && n >= TWO_TO_THE_63
    ensures var v := Some(JNumber(PosInt(n))); CoerceInt(lib, v, t) == ExactOrNull(v, t) <==> !Clamps(v, t)
    ensures CoerceInt(lib, Some(JNumber(PosInt(n))), t) == if t.Int64? || t.UInt64? then Some(TWO_TO_THE_63 - 1) else None
  {
    var f := lib.toF64(PosInt(n));
    assert IsWhole(f) && CastToI64(f) == TWO_TO_THE_63 - 1;
    assert ExactValue(PosInt(n)) == n as real && (n as real).Floor == n;
    InWidthIff(t, n);
  }

  lemma DoubleClampsIff(lib: Lib, r: real, t: IntType)
    requires ConvertsLikeIeee(lib)
    ensures var v := Some(JNumber(Double(r))); CoerceInt(lib, v, t) == ExactOrNull(v, t) <==> !Clamps(v, t)
  {
    assert AsF64(lib, JNumber(Double(r))) == Some(r);
    if IsWhole(r) {
      var n := r.Floor;
      InWidthIff(t, n);
      assert CastToI64(r) == Max(-TWO_TO_THE_63, Min(n, TWO_TO_THE_63 - 1)) by {
        assert -r == (-n) as real && (-r).Floor == -n;
      }
    }
  }

  /** An integer slot is exact or null if and only if the clamp is not met: always for 8, 16 and 32
      bits, and for 64 bits whenever the number lies within `i64`. */
  lemma CoercionIsExactOrNullIff(lib: Lib, v: Option<JsonValue>, t: IntType)
    requires ConvertsLikeIeee(lib)
    ensures CoerceInt(lib, v, t) == ExactOrNull(v, t) <==> !Clamps(v, t)
  {
    match v
    case Some(JNumber(PosInt(n))) =>
      if n < TWO_TO_THE_63 {
        SmallIntegerIsExact(lib, PosInt(n), t);
      } else {
        LargeIntegerClampsIff(lib, n, t);
      }
    case Some(JNumber(NegInt(m))) => SmallIntegerIsExact(lib, NegInt(m), t);
    case Some(JNumber(Double(r))) => DoubleClampsIff(lib, r, t);
    case _ =>
  }

  // ----- build_batch

  datatype DataType =
    | Utf8Type
    | LargeUtf8Type
    | Utf8ViewType
    | IntColumn(t: IntType)
    | Float32Type
    | Float64Type
    | BooleanType
    | TimestampMillisType
    | OtherType(text: string)

  datatype Field = Field(name: string, dataType: DataType)

  datatype Cell = NullCell | TextCell(s: string) | IntCell(n: int) | FloatCell(r: real) | BoolCell(b: bool) | MillisCell(ms: int)

  function JsonText(lib: Lib, v: Option<JsonValue>): Cell {
    match v
    case None => NullCell
    case Some(JNull) => NullCell
    case Some(JString(s)) => TextCell(s)
    case Some(other) => TextCell(lib.render(other))
  }

  function CellOf(lib: Lib, t: DataType, v: Option<JsonValue>): Cell
    requires !t.OtherType?
  {
    match t
    case Utf8Type => JsonText(lib, v)
    case LargeUtf8Type => JsonText(lib, v)
    case Utf8ViewType => JsonText(lib, v)
    case IntColumn(w) => (match CoerceInt(lib, v, w) case None => NullCell case Some(n) => IntCell(n))
    case Float32Type =>
      if v.Some? && AsF64(lib, v.value).Some? then FloatCell(lib.toF32(AsF64(lib, v.value).value)) else NullCell
    case Float64Type =>
      if v.Some? && AsF64(lib, v.value).Some? then FloatCell(AsF64(lib, v.value).value) else NullCell
    case BooleanType =>
      if v.Some? && v.value.JBoolean? then BoolCell(v.value.b) else NullCell
    case TimestampMillisType =>
      (match v
       case Some(JNumber(n)) =>
         MillisCell(if AsI64(v.value).Some? then AsI64(v.value).value else CastToI64(lib.toF64(n)))
       case Some(JString(s)) => (match lib.parseDate(s) case None => NullCell case Some(ms) => MillisCell(ms))
       case _ => NullCell)
  }

  /** One column: one slot for each source, in order. */
  function ColumnOf(lib: Lib, f: Field, sources: seq<JsonValue>): (column: seq<Cell>)
    requires !f.dataType.OtherType?
    ensures |column| == |sources|
  {
    if sources == [] then []
    else [CellOf(lib, f.dataType, Get(sources[0], f.name))] + ColumnOf(lib, f, sources[1..])
  }

  datatype BatchError = Unsupported(column: string)

  predicate Readable(schema: seq<Field>) {
    forall i :: 0 <= i < |schema| ==> !schema[i].dataType.OtherType?
  }

  function Columns(lib: Lib, schema: seq<Field>, sources: seq<JsonValue>): seq<seq<Cell>>
    requires Readable(schema)
  {
    seq(|schema|, i requires 0 <= i < |schema| => ColumnOf(lib, schema[i], sources))
  }

  // ----- What a batch shows

  predicate FirstMember(members: seq<(string, JsonValue)>, name: string, v: JsonValue, k: nat) {
    && k < |members| && members[k] == (name, v)
    && forall m :: 0 <= m < k ==> members[m].0 != name
  }

  /** The object has that member. */
  ghost predicate HasMember(source: JsonValue, name: string, v: JsonValue) {
    source.JObject? && exists k: nat :: FirstMember(source.members, name, v, k)
  }

  predicate LacksMember(source: JsonValue, name: string) {
    source.JObject? ==> forall k :: 0 <= k < |source.members| ==> source.members[k].0 != name
  }

  lemma {:induction false} FirstMemberIsLookedUp(members: seq<(string, JsonValue)>, name: string, v: JsonValue, k: nat)
    requires FirstMember(members, name, v, k)
    ensures Lookup(members, name) == Some(v)
  {
    if k > 0 {
      assert forall m :: 0 <= m < k - 1 ==> members[1..][m] == members[m + 1];
      FirstMemberIsLookedUp(members[1..], name, v, k - 1);
    }
  }

  lemma {:induction false} LookedUpIsFirstMember(members: seq<(string, JsonValue)>, name: string) returns (k: nat)
    requires Lookup(members, name).Some?
    ensures FirstMember(members, name, Lookup(members, name).value, k)
  {
    if members[0].0 == name {
      k := 0;
    } else {
      k := LookedUpIsFirstMember(members[1..], name);
      k := k + 1;
      assert forall m :: 0 < m < k ==> members[m] == members[1..][m - 1];
    }
  }

  lemma GetMeans(source: JsonValue, name: string)
    ensures forall v :: HasMember(source, name, v) <==> Get(source, name) == Some(v)
    ensures LacksMember(source, name) <==> Get(source, name) == None
  {
    if source.JObject? {
      forall v ensures HasMember(source, name, v) <==> Get(source, name) == Some(v) {
        if k: nat :| FirstMember(source.members, name, v, k) {
          FirstMemberIsLookedUp(source.members, name, v, k);
        }
        if Lookup(source.members, name) == Some(v) {
          var k := LookedUpIsFirstMember(source.members, name);
        }
      }
      if Lookup(source.members, name).Some? {
        var k := LookedUpIsFirstMember(source.members, name);
      } else if k :| 0 <= k < |source.members| && source.members[k].0 == name {
        var i := LookupFinds(source.members, name);
        assert false;
      }
    }
  }

  /** A string as it is, any other value but null as its JSON text. */
  predicate ShowsText(lib: Lib, v: JsonValue, cell: Cell) {
    match v
    case JNull => cell == NullCell
    case JString(s) => cell == TextCell(s)
    case _ => cell == TextCell(lib.render(v))
  }

  /** The whole number of that value if the width holds it, the nearest signed 64-bit number in its place where it
      lies beyond those, and null otherwise. */
  predicate ShowsInteger(t: IntType, v: JsonValue, cell: Cell) {
    if v.JNumber? && ExactValue(v.number) == ExactValue(v.number).Floor as real then
      var n := ExactValue(v.number).Floor;
      var m := if n >= TWO_TO_THE_63 then TWO_TO_THE_63 - 1 else if n < -TWO_TO_THE_63 then -TWO_TO_THE_63 else n;
      cell == if InWidth(t, m) then IntCell(m) else NullCell
    else cell == NullCell
  }

  /** A number of milliseconds cut towards zero and kept within 64 bits, or the instant a text names. */
  predicate ShowsInstant(lib: Lib, v: JsonValue, cell: Cell) {
    match v
    case JNumber(n) =>
      var r := ExactValue(n);
      && cell.MillisCell?
      && (r >= TWO_TO_THE_63 as real ==> cell.ms == TWO_TO_THE_63 - 1)
      && (r < -TWO_TO_THE_63 as real ==> cell.ms == -TWO_TO_THE_63)
      && (0.0 <= r < TWO_TO_THE_63 as real ==> cell.ms as real <= r < cell.ms as real + 1.0)
      && (-TWO_TO_THE_63 as real <= r < 0.0 ==> cell.ms as real - 1.0 < r <= cell.ms as real)
    case JString(s) => cell == if lib.parseDate(s).Some? then MillisCell(lib.parseDate(s).value) else NullCell
    case _ => cell == NullCell
  }

  predicate ShowsValue(lib: Lib, t: DataType, v: JsonValue, cell: Cell) {
    match t
    case Utf8Type => ShowsText(lib, v, cell)
    case LargeUtf8Type => ShowsText(lib, v, cell)
    case Utf8ViewType => ShowsText(lib, v, cell)
    case IntColumn(w) => ShowsInteger(w, v, cell)
    case Float32Type => cell == if v.JNumber? then FloatCell(lib.toF32(lib.toF64(v.number))) else NullCell
    case Float64Type => cell == if v.JNumber? then FloatCell(lib.toF64(v.number)) else NullCell
    case BooleanType => cell == if v.JBoolean? then BoolCell(v.b) else NullCell
    case TimestampMillisType => ShowsInstant(lib, v, cell)
    case OtherType(_) => false
  }

  /** The slot of a source in a column: null where the source lacks the field, else what its value means there. */
  ghost predicate ShowsSlot(lib: Lib, f: Field, source: JsonValue, cell: Cell) {
    && (LacksMember(source, f.name) ==> cell == NullCell)
    && forall v :: HasMember(source, f.name, v) ==> ShowsValue(lib, f.dataType, v, cell)
  }

  ghost predicate ShowsBatch(lib: Lib, schema: seq<Field>, sources: seq<JsonValue>, columns: seq<seq<Cell>>) {
    && |columns| == |schema|
    && forall j :: 0 <= j < |schema| ==>
         && |columns[j]| == |sources|
         && forall i :: 0 <= i < |sources| ==> ShowsSlot(lib, schema[j], sources[i], columns[j][i])
  }

  function Nearest64(n: int): int {
    if n >= TWO_TO_THE_63 then TWO_TO_THE_63 - 1 else if n < -TWO_TO_THE_63 then -TWO_TO_THE_63 else n
  }

  lemma ShownInRange(t: IntType, number: Number, n: int, cell: Cell)
    requires ExactValue(number) == n as real
    requires cell == if Lowest(t) <= Nearest64(n) <= Highest(t) then IntCell(Nearest64(n)) else NullCell
    ensures ShowsInteger(t, JNumber(number), cell)
  {
    assert (n as real).Floor == n;
    InWidthIff(t, Nearest64(n));
  }

  lemma WholeIsShown(lib: Lib, t: IntType, n: int, number: Number)
    requires ConvertsLikeIeee(lib) && ExactValue(number) == n as real
    ensures ShowsInteger(t, JNumber(number), CellOf(lib, IntColumn(t), Some(JNumber(number))))
  {
    var v := JNumber(number);
    assert (n as real).Floor == n;
    if AsI64(v).Some? {
      assert AsI64(v) == Some(n) by {
        assert AsI64(v).value as real == n as real;
      }
    } else {
      var f := lib.toF64(number);
      assert IsWhole(f) && CastToI64(f) == Nearest64(n) by {
        if number.Double? {
          assert f == n as real;
          WholeCast(n);
        }
      }
    }
    ShownInRange(t, number, n, CellOf(lib, IntColumn(t), Some(v)));
  }

  lemma WholeCast(n: int)
    ensures CastToI64(n as real) == Nearest64(n)
  {
    assert (n as real).Floor == n && -(n as real) == (-n) as real && ((-n) as real).Floor == -n;
  }

  lemma IntegerIsShown(lib: Lib, t: IntType, v: JsonValue)
    requires ConvertsLikeIeee(lib)
    ensures ShowsInteger(t, v, CellOf(lib, IntColumn(t), Some(v)))
  {
    match v
    case JNumber(PosInt(n)) => WholeIsShown(lib, t, n, PosInt(n));
    case JNumber(NegInt(m)) => WholeIsShown(lib, t, m, NegInt(m));
    case JNumber(Double(r)) =>
      if r == r.Floor as real {
        WholeIsShown(lib, t, r.Floor, Double(r));
      } else {
        assert AsF64(lib, v) == Some(r);
      }
    case _ =>
  }

  lemma InstantIsShown(lib: Lib, v: JsonValue)
    requires ConvertsLikeIeee(lib)
    ensures ShowsInstant(lib, v, CellOf(lib, TimestampMillisType, Some(v)))
  {
    match v
    case JNumber(PosInt(n)) =>
      if n >= TWO_TO_THE_63 {
        var f := lib.toF64(PosInt(n));
        assert f >= TWO_TO_THE_63 as real && CastToI64(f) == TWO_TO_THE_63 - 1;
      }
    case JNumber(Double(r)) => TimestampTruncates(lib, r);
    case _ =>
  }

  lemma ValueIsShown(lib: Lib, t: DataType, v: JsonValue)
    requires ConvertsLikeIeee(lib) && !t.OtherType?
    ensures ShowsValue(lib, t, v, CellOf(lib, t, Some(v)))
  {
    match t
    case IntColumn(w) => IntegerIsShown(lib, w, v);
    case TimestampMillisType => InstantIsShown(lib, v);
    case _ =>
  }

  lemma {:induction false} SlotIsShown(lib: Lib, f: Field, sources: seq<JsonValue>, i: nat)
    requires ConvertsLikeIeee(lib) && !f.dataType.OtherType? && i < |sources|
    ensures ShowsSlot(lib, f, sources[i], ColumnOf(lib, f, sources)[i])
  {
    if i == 0 {
      GetMeans(sources[0], f.name);
      if Get(sources[0], f.name).Some? {
        ValueIsShown(lib, f.dataType, Get(sources[0], f.name).value);
      }
    } else {
      SlotIsShown(lib, f, sources[1..], i - 1);
    }
  }

  lemma BatchIsShown(lib: Lib, schema: seq<Field>, sources: seq<JsonValue>)
    requires ConvertsLikeIeee(lib) && Readable(schema)
    ensures ShowsBatch(lib, schema, sources, Columns(lib, schema, sources))
  {
    forall j, i | 0 <= j < |schema| && 0 <= i < |sources|
      ensures ShowsSlot(lib, schema[j], sources[i], Columns(lib, schema, sources)[j][i])
    {
      SlotIsShown(lib, schema[j], sources, i);
    }
  }

  /** `build_batch`: every column of the schema, each slot showing the field of its source, or the first column of
      an unsupported type. */
  method BuildBatch(lib: Lib, schema: seq<Field>, sources: seq<JsonValue>) returns (res: Result<seq<seq<Cell>>, BatchError>)
    ensures res.Ok? <==> Readable(schema)
    ensures res.Ok? ==> res.value == Columns(lib, schema, sources)
    ensures res.Ok? && ConvertsLikeIeee(lib) ==> ShowsBatch(lib, schema, sources, res.value)
    ensures res.Err? ==> exists i :: 0 <= i < |schema| && schema[i].dataType.OtherType? &&
                           Readable(schema[..i]) && res.error == Unsupported(schema[i].name)
  {
    var columns: seq<seq<Cell>> := [];
    var i := 0;
    while i < |schema|
      invariant 0 <= i <= |schema|
      invariant |columns| == i
      invariant forall j :: 0 <= j < i ==> !schema[j].dataType.OtherType? && columns[j] == ColumnOf(lib, schema[j], sources)
    {
      if schema[i].dataType.OtherType? {
        assert Readable(schema[..i]);
        return Err(Unsupported(schema[i].name));
      }
      columns := columns + [ColumnOf(lib, schema[i], sources)];
      i := i + 1;
    }
    res := Ok(columns);
    assert columns == Columns(lib, schema, sources);
    if ConvertsLikeIeee(lib) {
      BatchIsShown(lib, schema, sources);
    }
  }

  // ----- Streaming and projection change nothing

  lemma {:induction false} ColumnOfConcat(lib: Lib, f: Field, a: seq<JsonValue>, b: seq<JsonValue>)
    requires !f.dataType.OtherType?
    ensures ColumnOf(lib, f, a + b) == ColumnOf(lib, f, a) + ColumnOf(lib, f, b)
  {
    if a == [] {
      assert a + b == b;
    } else {
      assert (a + b)[1..] == a[1..] + b;
      ColumnOfConcat(lib, f, a[1..], b);
    }
  }

  /** The batches of one column, page by page. */
  function ColumnPages(lib: Lib, f: Field, pages: seq<seq<JsonValue>>): seq<seq<Cell>>
    requires !f.dataType.OtherType?
  {
    if pages == [] then [] else [ColumnOf(lib, f, pages[0])] + ColumnPages(lib, f, pages[1..])
  }

  lemma {:induction false} PagesJoin(lib: Lib, f: Field, pages: seq<seq<JsonValue>>)
    requires !f.dataType.OtherType?
    ensures Concat(ColumnPages(lib, f, pages)) == ColumnOf(lib, f, Concat(pages))
  {
    if pages != [] {
      PagesJoin(lib, f, pages[1..]);
      ColumnOfConcat(lib, f, pages[0], Concat(pages[1..]));
    }
  }

  /** The record batches of a whole stream, joined column by column, are the one batch of all its
      rows: the first `fetch` hits of the search, or all of them. */
  lemma StreamedColumnsAreWhole(lib: Lib, f: Field, w: World<JsonValue>, x: Inner, partition: nat)
    requires !f.dataType.OtherType? && Serves(w, x, partition)
    ensures Inv(w, x, Start(x, partition))
    ensures Concat(ColumnPages(lib, f, Run(w, x, Start(x, partition)))) == ColumnOf(lib, f, Goal(w, x))
  {
    StreamIsComplete(w, x, partition);
    PagesJoin(lib, f, Run(w, x, Start(x, partition)));
  }

  /** Where the stream of a partition ends when its batches are built: at the first batch that cannot be, the
      error is returned and the page state dropped as it stands. */
  function BuiltEnd(schema: seq<Field>, w: World<JsonValue>, x: Inner, s: Session): Session
    requires Inv(w, x, s)
    decreases |w.hits| - s.server.pos
  {
    var (out, s') := NextPage(w, x, s);
    StepIsRight(w, x, s);
    if out.None? || !Readable(schema) then s' else BuiltEnd(schema, w, x, s')
  }

  lemma {:induction false} BuiltLikeRun(schema: seq<Field>, w: World<JsonValue>, x: Inner, s: Session)
    requires Inv(w, x, s) && Readable(schema)
    ensures BuiltEnd(schema, w, x, s) == RunEnd(w, x, s)
    decreases |w.hits| - s.server.pos
  {
    var (out, s') := NextPage(w, x, s);
    RunStep(w, x, s);
    if out.Some? {
      BuiltLikeRun(schema, w, x, s');
    }
  }

  /** A stream leaves a cursor open on the server if and only if its schema has a column of an unsupported
      type and a scroll brings a row to build. */
  lemma LeavesCursorOpenIff(schema: seq<Field>, w: World<JsonValue>, x: Inner, partition: nat)
    requires Serves(w, x, partition)
    ensures Inv(w, x, Start(x, partition))
    ensures BuiltEnd(schema, w, x, Start(x, partition)).server.cursor.Some? <==>
            !Readable(schema) && !x.singlePage && Goal(w, x) != []
  {
    StartIsReady(w, x, partition);
    var start := Start(x, partition);
    if Readable(schema) {
      BuiltLikeRun(schema, w, x, start);
      RunEnds(w, x, start);
    } else {
      StepIsRight(w, x, start);
      var (out, s') := NextPage(w, x, start);
      if out.Some? {
        var (page, server) := SearchPage(w, start.server, RequestSize(x, x.fetch), !x.singlePage, w.slice);
        FirstPage(w, x, partition, page, server);
      }
    }
  }

  function Project<T>(xs: seq<T>, picks: seq<nat>): seq<T>
    requires forall k :: k in picks ==> k < |xs|
  {
    seq(|picks|, i requires 0 <= i < |picks| => assert picks[i] in picks; xs[picks[i]])
  }

  /** Building the batch of a projected schema is projecting the batch. */
  lemma ProjectionCommutes(lib: Lib, schema: seq<Field>, picks: seq<nat>, sources: seq<JsonValue>)
    requires Readable(schema) && forall k :: k in picks ==> k < |schema|
    ensures Readable(Project(schema, picks))
    ensures Columns(lib, Project(schema, picks), sources) == Project(Columns(lib, schema, sources), picks)
    ensures var projected := Columns(lib, Project(schema, picks), sources);
            && |projected| == |picks|
            && forall i :: 0 <= i < |picks| ==>
                 && picks[i] < |schema| && Project(schema, picks)[i] == schema[picks[i]]
                 && projected[i] == Columns(lib, schema, sources)[picks[i]]
  {
    assert forall i :: 0 <= i < |picks| ==> picks[i] in picks;
  }

  // ----- schema_from_mapping

  function FindProperties(v: JsonValue): Option<seq<(string, JsonValue)>> {
    match Get(v, "properties")
    case Some(JObject(ps)) => Some(ps)
    case _ =>
      match Get(v, "mappings")
      case Some(m) => (match Get(m, "properties") case Some(JObject(ps)) => Some(ps) case _ => None)
      case None => if v.JObject? && v.members != [] then FindProperties(v.members[0].1) else None
  }

  function ArrowTypeFor(osType: Option<string>): DataType {
    if osType.None? then Utf8Type
    else if osType.value in {"long", "integer", "short", "byte", "unsigned_long"} then IntColumn(Int64)
    else if osType.value in {"double", "float", "half_float", "scaled_float"} then Float64Type
    else if osType.value == "boolean" then BooleanType
    else if osType.value in {"date", "date_nanos"} then TimestampMillisType
    else Utf8Type
  }

  predicate IsIntegerName(t: string) {
    t == "long" || t == "integer" || t == "short" || t == "byte" || t == "unsigned_long"
  }

  predicate IsFloatName(t: string) {
    t == "double" || t == "float" || t == "half_float" || t == "scaled_float"
  }

  predicate IsDateName(t: string) {
    t == "date" || t == "date_nanos"
  }

  /** The value a document's field stands for, by the mapping's type and without the reader's conversions.
      Integers are doubles without loss up to `2^53`. Structured values, date texts and values the mapping
      type does not admit have none. */
  function Meant(osType: Option<string>, v: JsonValue): Option<Cell> {
    var t := if osType.Some? then osType.value else "";
    match v
    case JNull => Some(NullCell)
    case JNumber(n) =>
      var r := ExactValue(n);
      if IsIntegerName(t) || IsDateName(t) then
        if r == r.Floor as real && -TWO_TO_THE_63 <= r.Floor < TWO_TO_THE_63 then
          Some(if IsDateName(t) then MillisCell(r.Floor) else IntCell(r.Floor))
        else None
      else if IsFloatName(t) && (n.Double? || -TWO_TO_THE_53 <= r.Floor <= TWO_TO_THE_53) then Some(FloatCell(r))
      else None
    case JBoolean(b) => if t == "boolean" then Some(BoolCell(b)) else None
    case JString(text) => if IsTextType(t) then Some(TextCell(text)) else None
    case _ => None
  }

  predicate IsTextType(t: string) {
    !IsIntegerName(t) && !IsFloatName(t) && t != "boolean" && !IsDateName(t)
  }

  lemma MappingTypeNames(t: string)
    ensures IsIntegerName(t) ==> !IsFloatName(t) && t != "boolean" && !IsDateName(t)
    ensures IsFloatName(t) ==> t != "boolean" && !IsDateName(t)
    ensures t == "boolean" ==> !IsDateName(t)
    ensures ArrowTypeFor(Some(t)) == if IsIntegerName(t) then IntColumn(Int64)
                                     else if IsFloatName(t) then Float64Type
                                     else if t == "boolean" then BooleanType
                                     else if IsDateName(t) then TimestampMillisType else Utf8Type
  {
  }

  /** Deriving the column type from the mapping and reading a value through it shows what the value stands
      for, for every mapping type. */
  lemma MappedValueIsSeen(lib: Lib, osType: Option<string>, v: JsonValue)
    requires ConvertsLikeIeee(lib) && Meant(osType, v).Some?
    ensures !ArrowTypeFor(osType).OtherType?
    ensures CellOf(lib, ArrowTypeFor(osType), Some(v)) == Meant(osType, v).value
  {
    if osType.Some? {
      MappingTypeNames(osType.value);
    }
    if v.JNumber? {
      CoercionIsExactOrNullIff(lib, Some(v), Int64);
      NumberIsSeen(lib, v.number);
    }
  }

  lemma NumberIsSeen(lib: Lib, n: Number)
    requires ConvertsLikeIeee(lib)
    ensures n.Double? || -TWO_TO_THE_53 <= ExactValue(n).Floor <= TWO_TO_THE_53 ==> lib.toF64(n) == ExactValue(n)
    ensures AsI64(JNumber(n)).Some? ==> ExactValue(n) == AsI64(JNumber(n)).value as real
    ensures AsI64(JNumber(n)).None? && IsWhole(ExactValue(n)) && -TWO_TO_THE_63 <= ExactValue(n).Floor < TWO_TO_THE_63 ==>
              CastToI64(lib.toF64(n)) == ExactValue(n).Floor
  {
    match n
    case PosInt(k) => assert (k as real).Floor == k;
    case NegInt(m) => assert (m as real).Floor == m;
    case Double(r) =>
      assert lib.toF64(n) == r;
      if IsWhole(r) {
        assert -r == (-r.Floor) as real && (-r).Floor == -r.Floor;
      }
  }

  /** A text column shows a structured value, a number or a boolean as its JSON text. Where their texts tell
      two values apart, the two look alike if and only if they are the same or one is a string that spells
      the other out. */
  lemma TextCellsAgreeIff(lib: Lib, v: JsonValue, w: JsonValue)
    requires lib.render(v) == lib.render(w) ==> v == w
    ensures JsonText(lib, Some(v)) == JsonText(lib, Some(w)) <==>
            || v == w
            || (v.JString? && !w.JString? && !w.JNull? && v.s == lib.render(w))
            || (w.JString? && !v.JString? && !v.JNull? && w.s == lib.render(v))
  {
  }

  /** A fractional number of milliseconds is cut towards zero, before and after the epoch, and one beyond
      64 bits becomes the nearest instant that fits. */
  lemma TimestampTruncates(lib: Lib, r: real)
    requires ConvertsLikeIeee(lib)
    ensures var cell := CellOf(lib, TimestampMillisType, Some(JNumber(Double(r))));
            && cell.MillisCell?
            && (r >= TWO_TO_THE_63 as real ==> cell.ms == TWO_TO_THE_63 - 1)
            && (r < -TWO_TO_THE_63 as real ==> cell.ms == -TWO_TO_THE_63)
            && (0.0 <= r < TWO_TO_THE_63 as real ==> cell.ms as real <= r < cell.ms as real + 1.0)
            && (-TWO_TO_THE_63 as real <= r < 0.0 ==> cell.ms as real - 1.0 < r <= cell.ms as real)
  {
    assert lib.toF64(Double(r)) == r;
  }

  /** `unsigned_long` is read as a signed column: from `2^63` on, a value appears as the largest signed
      one, where the documentation says null. */
  lemma UnsignedLongClamps(lib: Lib, n: U64)
    requires ConvertsLikeIeee(lib)
    ensures var cell := CellOf(lib, ArrowTypeFor(Some("unsigned_long")), Some(JNumber(PosInt(n))));
            cell == IntCell(if n < TWO_TO_THE_63 then n else TWO_TO_THE_63 - 1)
  {
    if n >= TWO_TO_THE_63 {
      LargeIntegerClampsIff(lib, n, Int64);
    }
  }

  function FieldOf(property: (string, JsonValue)): Field {
    var t := match Get(property.1, "type") case Some(JString(s)) => Some(s) case _ => None;
    Field(property.0, ArrowTypeFor(t))
  }

  function FieldsOf(properties: seq<(string, JsonValue)>): seq<Field> {
    if properties == [] then [] else [FieldOf(properties[0])] + FieldsOf(properties[1..])
  }

  function Insert(f: Field, sorted: seq<Field>): seq<Field> {
    if sorted == [] || CompareText(f.name, sorted[0].name) != Greater then [f] + sorted
    else [sorted[0]] + Insert(f, sorted[1..])
  }

  /** The library's sort by name. */
  function SortByName(fields: seq<Field>): seq<Field> {
    if fields == [] then [] else Insert(fields[0], SortByName(fields[1..]))
  }

  // ----- Canonical schemas

  predicate NameOrdered(fields: seq<Field>) {
    forall i, j :: 0 <= i < j < |fields| ==> CompareText(fields[i].name, fields[j].name) == Less
  }

  predicate DistinctNames(fields: seq<Field>) {
    forall i, j :: 0 <= i < j < |fields| ==> fields[i].name != fields[j].name
  }

  lemma {:induction false} InsertKeeps(f: Field, sorted: seq<Field>)
    ensures multiset(Insert(f, sorted)) == multiset(sorted) + multiset{f}
  {
    if sorted != [] {
      assert sorted == [sorted[0]] + sorted[1..];
      InsertKeeps(f, sorted[1..]);
    }
  }

  lemma PrependOrdered(f: Field, sorted: seq<Field>)
    requires NameOrdered(sorted)
    requires forall g :: g in multiset(sorted) ==> CompareText(f.name, g.name) == Less
    ensures NameOrdered([f] + sorted)
  {
    var all := [f] + sorted;
    forall i, j | 0 <= i < j < |all| ensures CompareText(all[i].name, all[j].name) == Less {
      assert all[j] in multiset(sorted);
    }
  }

  lemma {:induction false} InsertOrdered(f: Field, sorted: seq<Field>)
    requires NameOrdered(sorted)
    requires forall i :: 0 <= i < |sorted| ==> sorted[i].name != f.name
    ensures NameOrdered(Insert(f, sorted))
  {
    if sorted != [] {
      CompareTextEqual(f.name, sorted[0].name);
      CompareTextSwaps(f.name, sorted[0].name);
      var rest := sorted[1..];
      if CompareText(f.name, sorted[0].name) == Greater {
        InsertOrdered(f, rest);
        InsertKeeps(f, rest);
        forall g | g in multiset(Insert(f, rest)) ensures CompareText(sorted[0].name, g.name) == Less {
        }
        PrependOrdered(sorted[0], Insert(f, rest));
      } else {
        forall g | g in multiset(sorted) ensures CompareText(f.name, g.name) == Less {
          var i :| 0 <= i < |sorted| && sorted[i] == g;
          if i > 0 {
            CompareTextTransitive(f.name, sorted[0].name, g.name);
          }
        }
        PrependOrdered(f, sorted);
      }
    }
  }

  lemma {:induction false} SortOrders(fields: seq<Field>)
    requires DistinctNames(fields)
    ensures NameOrdered(SortByName(fields)) && multiset(SortByName(fields)) == multiset(fields)
  {
    if fields != [] {
      var rest := SortByName(fields[1..]);
      SortOrders(fields[1..]);
      assert fields == [fields[0]] + fields[1..];
      forall i | 0 <= i < |rest| ensures rest[i].name != fields[0].name {
        assert rest[i] in multiset(fields[1..]);
      }
      InsertOrdered(fields[0], rest);
      InsertKeeps(fields[0], rest);
    }
  }

  lemma TailMembers(a: seq<Field>)
    requires NameOrdered(a) && a != []
    ensures forall f :: f in a[1..] <==> f in a && f != a[0]
    ensures forall f :: f in a ==> f == a[0] || CompareText(a[0].name, f.name) == Less
    ensures CompareText(a[0].name, a[0].name) == Equal
  {
    CompareTextEqual(a[0].name, a[0].name);
    assert a == [a[0]] + a[1..];
  }

  /** Name-ordered lists of the same fields are the same list. */
  lemma {:induction false} OneOrderedList(a: seq<Field>, b: seq<Field>)
    requires NameOrdered(a) && NameOrdered(b)
    requires forall f :: f in a <==> f in b
    ensures a == b
  {
    if a == [] {
      assert forall i :: 0 <= i < |b| ==> b[i] in b;
    } else {
      assert a[0] in a && a[0] in b;
      TailMembers(a);
      TailMembers(b);
      CompareTextSwaps(a[0].name, b[0].name);
      assert a[0] == b[0];
      OneOrderedList(a[1..], b[1..]);
      assert a == [a[0]] + a[1..] && b == [b[0]] + b[1..];
    }
  }

  lemma {:induction false} FieldsOfMembers(ps: seq<(string, JsonValue)>, f: Field)
    ensures f in FieldsOf(ps) <==> exists p :: p in ps && FieldOf(p) == f
  {
    if ps != [] {
      FieldsOfMembers(ps[1..], f);
    }
  }

  predicate DistinctKeys(ps: seq<(string, JsonValue)>) {
    forall i, j :: 0 <= i < j < |ps| ==> ps[i].0 != ps[j].0
  }

  lemma {:induction false} FieldsOfAt(ps: seq<(string, JsonValue)>)
    ensures |FieldsOf(ps)| == |ps| && forall i :: 0 <= i < |ps| ==> FieldsOf(ps)[i] == FieldOf(ps[i])
  {
    if ps != [] {
      FieldsOfAt(ps[1..]);
    }
  }

  /** The schema lists every property once, in name order, whatever order the mapping is iterated in. */
  lemma SchemaIsCanonical(ps: seq<(string, JsonValue)>, qs: seq<(string, JsonValue)>)
    requires DistinctKeys(ps) && DistinctKeys(qs)
    ensures NameOrdered(SortByName(FieldsOf(ps)))
    ensures multiset(SortByName(FieldsOf(ps))) == multiset(FieldsOf(ps))
    ensures (forall p :: p in ps <==> p in qs) ==> SortByName(FieldsOf(ps)) == SortByName(FieldsOf(qs))
  {
    FieldsOfAt(ps);
    FieldsOfAt(qs);
    SortOrders(FieldsOf(ps));
    SortOrders(FieldsOf(qs));
    if forall p :: p in ps <==> p in qs {
      var a, b := SortByName(FieldsOf(ps)), SortByName(FieldsOf(qs));
      forall f ensures f in a <==> f in b {
        FieldsOfMembers(ps, f);
        FieldsOfMembers(qs, f);
        assert f in a <==> f in multiset(FieldsOf(ps));
        assert f in b <==> f in multiset(FieldsOf(qs));
      }
      OneOrderedList(a, b);
    }
  }

  // ----- The schema of a mapping

  /** The type a property's definition names. */
  ghost predicate Names(def: JsonValue, t: string) {
    HasMember(def, "type", JString(t))
  }

  /** The column type of a field, by the mapping type its definition names, if any. */
  ghost predicate TypedBy(def: JsonValue, t: DataType) {
    if Names(def, "long") || Names(def, "integer") || Names(def, "short") || Names(def, "byte") || Names(def, "unsigned_long")
    then t == IntColumn(Int64)
    else if Names(def, "double") || Names(def, "float") || Names(def, "half_float") || Names(def, "scaled_float")
    then t == Float64Type
    else if Names(def, "boolean") then t == BooleanType
    else if Names(def, "date") || Names(def, "date_nanos") then t == TimestampMillisType
    else t == Utf8Type
  }

  ghost predicate Describes(f: Field, property: (string, JsonValue)) {
    f.name == property.0 && TypedBy(property.1, f.dataType)
  }

  /** Each name before the next: the smaller character first where they differ. */
  ghost predicate NamesAscend(fields: seq<Field>) {
    forall i, j :: 0 <= i < j < |fields| ==> TextBefore(fields[i].name, fields[j].name)
  }

  ghost predicate FieldsDescribe(fields: seq<Field>, ps: seq<(string, JsonValue)>) {
    && (forall p :: p in ps ==> exists f :: f in fields && Describes(f, p))
    && (forall f :: f in fields ==> exists p :: p in ps && Describes(f, p))
  }

  lemma FieldDescribes(p: (string, JsonValue))
    ensures Describes(FieldOf(p), p)
  {
    GetMeans(p.1, "type");
    match Get(p.1, "type")
    case Some(JString(t)) =>
      MappingTypeNames(t);
      forall u ensures Names(p.1, u) <==> t == u {
      }
    case _ =>
      forall u ensures !Names(p.1, u) {
      }
  }

  lemma SortedFieldsDescribe(ps: seq<(string, JsonValue)>, fields: seq<Field>)
    requires NameOrdered(fields) && multiset(fields) == multiset(FieldsOf(ps))
    ensures NamesAscend(fields) && FieldsDescribe(fields, ps)
  {
    forall i, j | 0 <= i < j < |fields| ensures TextBefore(fields[i].name, fields[j].name) {
      CompareTextMeans(fields[i].name, fields[j].name);
    }
    forall p | p in ps ensures exists f :: f in fields && Describes(f, p) {
      FieldsOfMembers(ps, FieldOf(p));
      FieldDescribes(p);
      assert FieldOf(p) in multiset(fields);
    }
    forall f | f in fields ensures exists p :: p in ps && Describes(f, p) {
      assert f in multiset(fields) && f in FieldsOf(ps);
      FieldsOfMembers(ps, f);
      var p :| p in ps && FieldOf(p) == f;
      FieldDescribes(p);
    }
  }

  /** What a caller gets: nothing where no properties are found, else every property once as a field of its name
      and type, and nothing more, in strictly ascending name order. The keys of a JSON object are distinct. */
  ghost predicate IsSchemaOf(schema: Option<seq<Field>>, mapping: JsonValue) {
    match FindProperties(mapping)
    case None => schema == None
    case Some(ps) =>
      schema.Some? && (DistinctKeys(ps) ==>
        && NameOrdered(schema.value) && multiset(schema.value) == multiset(FieldsOf(ps))
        && NamesAscend(schema.value) && FieldsDescribe(schema.value, ps))
  }

  lemma SortedFieldsAreSchema(mapping: JsonValue)
    ensures FindProperties(mapping).Some? ==>
              IsSchemaOf(Some(SortByName(FieldsOf(FindProperties(mapping).value))), mapping)
  {
    match FindProperties(mapping)
    case Some(ps) =>
      if DistinctKeys(ps) {
        SchemaIsCanonical(ps, ps);
        SortedFieldsDescribe(ps, SortByName(FieldsOf(ps)));
      }
    case None =>
  }

  method SchemaFromMapping(mapping: JsonValue) returns (schema: Option<seq<Field>>)
    ensures IsSchemaOf(schema, mapping)
  {
    var properties := FindProperties(mapping);
    if properties.None? {
      return None;
    }
    var fields := FieldsOf(properties.value);
    SortedFieldsAreSchema(mapping);
    fields := SortByName(fields);
    schema := Some(fields);
  }

  // ----- The accepted shapes

  function Bare(name: string, v: JsonValue): JsonValue {
    JObject([(name, v)])
  }

  lemma GetBare(name: string, v: JsonValue, key: string)
    ensures Get(Bare(name, v), key) == if name == key then Some(v) else None
  {
    var members := [(name, v)];
    assert members[1..] == [] && Lookup(members[1..], key) == None;
    assert Lookup(members, key) == if name == key then Some(v) else None;
  }

  lemma KeysDiffer()
    ensures "mappings" != "properties"
  {
    assert "mappings"[0] != "properties"[0];
  }

  /** The raw response of some indices, each with its mapping. */
  function RawResponse(names: seq<string>, ms: seq<JsonValue>): JsonValue
    requires |names| == |ms|
  {
    JObject(seq(|names|, i requires 0 <= i < |names| => (names[i], Bare("mappings", ms[i]))))
  }

  lemma {:induction false} LookupFinds(members: seq<(string, JsonValue)>, key: string) returns (i: nat)
    requires exists k :: 0 <= k < |members| && members[k].0 == key
    ensures i < |members| && members[i].0 == key && Lookup(members, key) == Some(members[i].1)
  {
    if members[0].0 == key {
      i := 0;
    } else {
      var k :| 0 <= k < |members| && members[k].0 == key;
      assert members[1..][k - 1].0 == key;
      i := LookupFinds(members[1..], key);
      i := i + 1;
    }
  }

  lemma {:induction false} LookupMisses(members: seq<(string, JsonValue)>, key: string)
    requires forall k :: 0 <= k < |members| ==> members[k].0 != key
    ensures Lookup(members, key) == None
  {
    if members != [] {
      LookupMisses(members[1..], key);
    }
  }

  /** A raw response holds under each name one of the mappings, wrapped. */
  lemma GetRaw(names: seq<string>, ms: seq<JsonValue>, key: string)
    requires |names| == |ms|
    ensures key !in names ==> Get(RawResponse(names, ms), key) == None
    ensures key in names ==> exists i :: 0 <= i < |ms| && Get(RawResponse(names, ms), key) == Some(Bare("mappings", ms[i]))
  {
    var members := RawResponse(names, ms).members;
    if key in names {
      var k :| 0 <= k < |names| && names[k] == key;
      assert members[k].0 == key;
      var i := LookupFinds(members, key);
      assert Get(RawResponse(names, ms), key) == Some(Bare("mappings", ms[i]));
    } else {
      LookupMisses(members, key);
    }
  }

  /** The properties are found in a `properties` object, in a `mappings` object with anything beside
      them, wrapped or not, and in a raw response, whose first index is used. */
  lemma EveryShapeIsRead(names: seq<string>, ms: seq<JsonValue>, ps: seq<(string, JsonValue)>)
    requires |names| == |ms| > 0 && Get(ms[0], "properties") == Some(JObject(ps))
    requires "properties" !in names && "mappings" !in names
    ensures FindProperties(Bare("properties", JObject(ps))) == Some(ps)
    ensures FindProperties(ms[0]) == Some(ps)
    ensures FindProperties(Bare("mappings", ms[0])) == Some(ps)
    ensures FindProperties(RawResponse(names, ms)) == Some(ps)
  {
    KeysDiffer();
    GetBare("properties", JObject(ps), "properties");
    GetBare("mappings", ms[0], "mappings");
    GetBare("mappings", ms[0], "properties");
    GetRaw(names, ms, "properties");
    GetRaw(names, ms, "mappings");
    assert FindProperties(Bare("mappings", ms[0])) == Some(ps);
    assert RawResponse(names, ms).members[0].1 == Bare("mappings", ms[0]);
  }

  lemma FieldsFollowProperties(ps: seq<(string, JsonValue)>, qs: seq<(string, JsonValue)>)
    requires forall p :: p in ps <==> p in qs
    ensures forall f :: f in multiset(FieldsOf(ps)) <==> f in multiset(FieldsOf(qs))
  {
    forall f ensures f in multiset(FieldsOf(ps)) <==> f in multiset(FieldsOf(qs)) {
      FieldsOfMembers(ps, f);
      FieldsOfMembers(qs, f);
    }
  }

  /** However a mapping is wrapped and in whatever order it lists its properties, there is one schema: a raw
      response, by its first index, a `mappings` object with or without its wrapper, and a `properties`
      object give the same. */
  lemma EveryShapeHasOneSchema(names: seq<string>, ms: seq<JsonValue>, ps: seq<(string, JsonValue)>,
                               names': seq<string>, ms': seq<JsonValue>, qs: seq<(string, JsonValue)>,
                               raw: Option<seq<Field>>, other: Option<seq<Field>>)
    requires |names| == |ms| > 0 && "properties" !in names && "mappings" !in names
    requires |names'| == |ms'| > 0 && "properties" !in names' && "mappings" !in names'
    requires Get(ms[0], "properties") == Some(JObject(ps)) && Get(ms'[0], "properties") == Some(JObject(qs))
    requires DistinctKeys(ps) && DistinctKeys(qs) && forall p :: p in ps <==> p in qs
    requires IsSchemaOf(raw, RawResponse(names, ms))
    requires || IsSchemaOf(other, RawResponse(names', ms')) || IsSchemaOf(other, Bare("mappings", ms'[0]))
             || IsSchemaOf(other, ms'[0]) || IsSchemaOf(other, Bare("properties", JObject(qs)))
    ensures raw.Some? && raw == other
  {
    EveryShapeIsRead(names, ms, ps);
    EveryShapeIsRead(names', ms', qs);
    FieldsFollowProperties(ps, qs);
    assert other.Some? && NameOrdered(other.value) && multiset(other.value) == multiset(FieldsOf(qs));
    forall f ensures f in raw.value <==> f in other.value {
      assert f in raw.value <==> f in multiset(raw.value);
      assert f in other.value <==> f in multiset(other.value);
    }
    OneOrderedList(raw.value, other.value);
  }

  /** Under a name like one of the two keys, a raw response of empty mappings is not read as one. */
  lemma MisreadResponse(names: seq<string>) returns (ms: seq<JsonValue>)
    requires "properties" in names || "mappings" in names
    ensures |ms| == |names| && forall i :: 0 <= i < |ms| ==> ms[i] == Bare("properties", JObject([]))
    ensures FindProperties(RawResponse(names, ms)) != Some([])
  {
    KeysDiffer();
    var m := Bare("properties", JObject([]));
    ms := seq(|names|, i => m);
    GetRaw(names, ms, "properties");
    GetRaw(names, ms, "mappings");
    GetBare("mappings", m, "properties");
    assert Bare("mappings", m).members != [];
  }

  /** A raw response is read by its first index, for all mappings, if and only if none of its indices is named
      like one of the two keys. */
  lemma RawResponseReadIff(names: seq<string>)
    requires names != []
    ensures (forall ms: seq<JsonValue>, ps ::
               |ms| == |names| && ms[0] == Bare("properties", JObject(ps)) ==>
                 FindProperties(RawResponse(names, ms)) == Some(ps)) <==>
            "properties" !in names && "mappings" !in names
  {
    if "properties" in names || "mappings" in names {
      var ms := MisreadResponse(names);
      assert ms[0] == Bare("properties", JObject([]));
    } else {
      forall ms: seq<JsonValue>, ps | |ms| == |names| && ms[0] == Bare("properties", JObject(ps))
        ensures FindProperties(RawResponse(names, ms)) == Some(ps)
      {
        GetBare("properties", JObject(ps), "properties");
        EveryShapeIsRead(names, ms, ps);
      }
    }
  }
}
