/** The schema-driven record coercion loop that both ingestion entry points
    run on a fetched batch before inserting it: every schema column becomes a
    key of the row, a missing field becomes null, fields outside the schema
    are dropped, and a truthy `DATE` value is reparsed from the API's
    timestamp form into `YYYY-MM-DD`. */
module Coercion {
  import opened Results
  import opened Calendar
  import opened DateText

  /** A value of a decoded JSON record. */
  datatype Value =
    | Null
    | Bool(b: bool)
    | Int(i: int)
    | Float(x: real)
    | Str(s: string)
    | List(items: seq<Value>)
    | Object(fields: map<string, Value>)

  /** Python truthiness: `None`, `False`, zero and empty containers are false. */
  predicate Truthy(v: Value) {
    match v
    case Null => false
    case Bool(b) => b
    case Int(i) => i != 0
    case Float(x) => x != 0.0
    case Str(s) => |s| > 0
    case List(items) => |items| > 0
    case Object(fields) => |fields| > 0
  }

  /** Python's name for the type of a decoded JSON value. */
  function TypeName(v: Value): string {
    match v
    case Null => "NoneType"
    case Bool(_) => "bool"
    case Int(_) => "int"
    case Float(_) => "float"
    case Str(_) => "str"
    case List(_) => "list"
    case Object(_) => "dict"
  }

  /** The `field_type` of a table column. Only `DATE` changes the coercion. */
  datatype TypeTag =
    | StringTag | BytesTag | IntegerTag | FloatTag | NumericTag | BooleanTag
    | TimestampTag | DateTag | TimeTag | DateTimeTag | GeographyTag | RecordTag | JsonTag

  datatype Column = Column(name: string, tag: TypeTag)

  /** The `{field.name: field.field_type}` dictionary, in the table's column
      order. Dictionary keys are distinct. */
  type Schema = seq<Column>

  predicate DistinctNames(schema: Schema) {
    forall i, j :: 0 <= i < j < |schema| ==> schema[i].name != schema[j].name
  }

  /** The keys of the schema dictionary. */
  function Names(schema: Schema): (r: set<string>)
    ensures forall k :: 0 <= k < |schema| ==> schema[k].name in r
  {
    if |schema| == 0 then {}
    else Names(schema[..|schema| - 1]) + {schema[|schema| - 1].name}
  }

  /** Every key of the schema dictionary names one of its columns. */
  lemma {:induction false} NameIndex(schema: Schema, key: string) returns (k: nat)
    requires key in Names(schema)
    ensures k < |schema| && schema[k].name == key
  {
    var init := schema[..|schema| - 1];
    if key == schema[|schema| - 1].name {
      k := |schema| - 1;
    } else {
      k := NameIndex(init, key);
    }
  }

  /** A fetched record and an output row are both JSON objects. */
  type Record = map<string, Value>
  type Row = map<string, Value>

  /** `record.get(key)`. A missing key and an explicit JSON null read alike. */
  function Get(rec: Record, key: string): Value {
    if key in rec then rec[key] else Null
  }

  /** The coercion of one field: the `if field_type == 'DATE' and value:`
      branch, whose `strptime` raises `ValueError` on a string that is not a
      timestamp and `TypeError` on a value that is not a string. */
  function CoerceValue(tag: TypeTag, v: Value): (r: Result<Value, PyError>)
    ensures tag != DateTag || !Truthy(v) ==> r == Ok(v)
    ensures tag == DateTag && Truthy(v) && !v.Str? ==>
              r == Err(TypeError("strptime() argument 1 must be str, not " + TypeName(v)))
    ensures tag == DateTag && v.Str? && |v.s| > 0 ==>
              (r.Ok? <==> ParseTimestamp(v.s).Some?) &&
              (r.Ok? ==> r.value == Str(FormatDate(ParseTimestamp(v.s).value.date))) &&
              (r.Err? ==> r.error == ValueError(v.s))
  {
    if tag == DateTag && Truthy(v) then
      if v.Str? then
        match ParseTimestamp(v.s)
        case Some(t) => Ok(Str(FormatDate(t.date)))
        case None => Err(ValueError(v.s))
      else Err(TypeError("strptime() argument 1 must be str, not " + TypeName(v)))
    else Ok(v)
  }

  /** The coerced `DATE` text is exactly the date that `validate_date` reads
      from the part of the timestamp before its `T`. */
  lemma DateColumnKeepsDatePart(s: string)
    requires CoerceValue(DateTag, Str(s)).Ok? && |s| > 0
    ensures IndexOfAny(s, TimeMark) < |s|
    ensures CoerceValue(DateTag, Str(s)).value.Str?
    ensures ValidateDate(CoerceValue(DateTag, Str(s)).value.s) == ValidateDate(s[..IndexOfAny(s, TimeMark)])
    ensures ValidateDate(CoerceValue(DateTag, Str(s)).value.s).Ok?
  {
    TimestampDatePart(s);
    ValidateFormatted(ParseTimestamp(s).value.date);
  }

  /** A zero-padded API timestamp is cut down to its first ten characters:
      the time of day is discarded. */
  lemma DateColumnCanonical(d: Date, h: nat, mi: nat, sec: nat, frac: string)
    requires Valid(d) && h < 24 && mi < 60 && sec < 60 && FractionToken(frac)
    ensures CoerceValue(DateTag, Str(FormatTimestamp(d, h, mi, sec, frac))) ==
              Ok(Str(FormatTimestamp(d, h, mi, sec, frac)[..10]))
  {
    ParseCanonicalTimestamp(d, h, mi, sec, frac);
    CanonicalTimestampPrefix(d, h, mi, sec, frac);
  }

  /** The inner loop over `schema.items()` for one record, in column order,
      stopping at the first column that raises. The row has exactly the
      schema's keys. */
  function CoerceRecord(schema: Schema, raw: Record): (r: Result<Row, PyError>)
    requires DistinctNames(schema)
    ensures r.Ok? ==> r.value.Keys == Names(schema)
  {
    if |schema| == 0 then Ok(map[])
    else
      var init := schema[..|schema| - 1];
      var last := schema[|schema| - 1];
      match CoerceRecord(init, raw)
      case Err(e) => Err(e)
      case Ok(row) =>
        match CoerceValue(last.tag, Get(raw, last.name))
        case Err(e) => Err(e)
        case Ok(v) =>
          assert last.name !in row.Keys by {
            if last.name in Names(init) {
              var k := NameIndex(init, last.name);
            }
          }
          Ok(row[last.name := v])
  }

  /** The coercion of column `k` of a record. */
  function CoerceColumn(schema: Schema, raw: Record, k: nat): Result<Value, PyError>
    requires k < |schema|
  {
    CoerceValue(schema[k].tag, Get(raw, schema[k].name))
  }

  /** A record coerces exactly when each of its columns does. */
  lemma {:induction false} RecordOkIffColumnsOk(schema: Schema, raw: Record)
    requires DistinctNames(schema)
    ensures CoerceRecord(schema, raw).Ok? <==> forall k :: 0 <= k < |schema| ==> CoerceColumn(schema, raw, k).Ok?
  {
    if |schema| > 0 {
      var init := schema[..|schema| - 1];
      var last := schema[|schema| - 1];
      assert forall k :: 0 <= k < |init| ==> CoerceColumn(init, raw, k) == CoerceColumn(schema, raw, k);
      RecordOkIffColumnsOk(init, raw);
      assert CoerceColumn(schema, raw, |schema| - 1) == CoerceValue(last.tag, Get(raw, last.name));
      if !CoerceRecord(schema, raw).Ok? && !CoerceRecord(init, raw).Ok? {
        var k :| 0 <= k < |init| && CoerceColumn(init, raw, k).Err?;
        assert CoerceColumn(schema, raw, k).Err?;
      }
    }
  }

  /** Each key of a coerced row holds its column's coerced value. */
  lemma {:induction false} RecordValues(schema: Schema, raw: Record)
    requires DistinctNames(schema) && CoerceRecord(schema, raw).Ok?
    ensures forall k :: 0 <= k < |schema| ==>
              CoerceColumn(schema, raw, k) == Ok(CoerceRecord(schema, raw).value[schema[k].name])
  {
    if |schema| > 0 {
      var init := schema[..|schema| - 1];
      var last := schema[|schema| - 1];
      assert forall k :: 0 <= k < |init| ==> CoerceColumn(init, raw, k) == CoerceColumn(schema, raw, k);
      RecordValues(init, raw);
      var row := CoerceRecord(schema, raw).value;
      forall k | 0 <= k < |init|
        ensures row[schema[k].name] == CoerceRecord(init, raw).value[init[k].name]
      {
        assert schema[k].name != last.name;
      }
    }
  }

  /** A record that raises reports the error of its first failing column. */
  lemma {:induction false} RecordFirstFailure(schema: Schema, raw: Record) returns (k: nat)
    requires DistinctNames(schema) && CoerceRecord(schema, raw).Err?
    ensures k < |schema| && CoerceColumn(schema, raw, k) == Err(CoerceRecord(schema, raw).error)
    ensures forall j :: 0 <= j < k ==> CoerceColumn(schema, raw, j).Ok?
  {
    var init := schema[..|schema| - 1];
    assert forall j :: 0 <= j < |init| ==> CoerceColumn(init, raw, j) == CoerceColumn(schema, raw, j);
    if CoerceRecord(init, raw).Err? {
      k := RecordFirstFailure(init, raw);
    } else {
      k := |schema| - 1;
      RecordOkIffColumnsOk(init, raw);
    }
  }

  /** Every column left alone by the `DATE` branch keeps its fetched value, and
      a column missing from the record is null. */
  lemma UntouchedColumns(schema: Schema, raw: Record, k: nat)
    requires DistinctNames(schema) && CoerceRecord(schema, raw).Ok? && k < |schema|
    requires schema[k].tag != DateTag || !Truthy(Get(raw, schema[k].name))
    ensures CoerceRecord(schema, raw).value[schema[k].name] == Get(raw, schema[k].name)
    ensures schema[k].name !in raw ==> CoerceRecord(schema, raw).value[schema[k].name] == Null
  {
    RecordValues(schema, raw);
  }

  /** Fields outside the schema do not matter: two records that agree on the
      schema's columns coerce alike. */
  lemma {:induction false} ExtraFieldsDropped(schema: Schema, raw: Record, other: Record)
    requires DistinctNames(schema)
    requires forall c :: c in schema ==> Get(raw, c.name) == Get(other, c.name)
    ensures CoerceRecord(schema, raw) == CoerceRecord(schema, other)
  {
    if |schema| > 0 {
      var init := schema[..|schema| - 1];
      assert forall k :: 0 <= k < |init| ==> init[k] == schema[k];
      assert forall c :: c in init ==> c in schema;
      ExtraFieldsDropped(init, raw, other);
      assert schema[|schema| - 1] in schema;
    }
  }

  /** The outer loop over the fetched records: one row per record, in fetch
      order, or the error of the first record that raises. */
  function CoerceBatch(schema: Schema, records: seq<Record>): (r: Result<seq<Row>, PyError>)
    requires DistinctNames(schema)
    ensures r.Ok? ==> |r.value| == |records|
    ensures r.Ok? ==> forall i :: 0 <= i < |records| ==> CoerceRecord(schema, records[i]) == Ok(r.value[i])
    ensures r.Ok? <==> forall i :: 0 <= i < |records| ==> CoerceRecord(schema, records[i]).Ok?
  {
    if |records| == 0 then Ok([])
    else
      var init := records[..|records| - 1];
      assert forall i :: 0 <= i < |init| ==> init[i] == records[i];
      match CoerceBatch(schema, init)
      case Err(e) => Err(e)
      case Ok(rows) =>
        match CoerceRecord(schema, records[|records| - 1])
        case Err(e) => Err(e)
        case Ok(row) => Ok(rows + [row])
  }

  /** A batch that raises reports the error of its first failing record, so
      no later record is looked at. */
  lemma {:induction false} BatchFirstFailure(schema: Schema, records: seq<Record>) returns (i: nat)
    requires DistinctNames(schema) && CoerceBatch(schema, records).Err?
    ensures i < |records| && CoerceRecord(schema, records[i]) == Err(CoerceBatch(schema, records).error)
    ensures forall j :: 0 <= j < i ==> CoerceRecord(schema, records[j]).Ok?
    ensures CoerceBatch(schema, records[..i]).Ok?
  {
    var init := records[..|records| - 1];
    assert forall j :: 0 <= j < |init| ==> init[j] == records[j];
    if CoerceBatch(schema, init).Err? {
      i := BatchFirstFailure(schema, init);
      assert init[..i] == records[..i];
    } else {
      i := |records| - 1;
    }
  }

  /** The record loop stops at a record that raises. */
  lemma {:induction false} BatchStopsAt(schema: Schema, records: seq<Record>, i: nat)
    requires DistinctNames(schema) && i < |records|
    requires CoerceBatch(schema, records[..i]).Ok? && CoerceRecord(schema, records[i]).Err?
    ensures CoerceBatch(schema, records) == Err(CoerceRecord(schema, records[i]).error)
  {
    var init := records[..|records| - 1];
    if i < |records| - 1 {
      assert init[..i] == records[..i];
      BatchStopsAt(schema, init, i);
    } else {
      assert init == records[..i];
    }
  }

  /** The column loop stops at a column that raises. */
  lemma {:induction false} RecordStopsAt(schema: Schema, raw: Record, k: nat)
    requires DistinctNames(schema) && k < |schema|
    requires CoerceRecord(schema[..k], raw).Ok? && CoerceColumn(schema, raw, k).Err?
    ensures CoerceRecord(schema, raw) == Err(CoerceColumn(schema, raw, k).error)
  {
    var init := schema[..|schema| - 1];
    if k < |schema| - 1 {
      assert init[..k] == schema[..k];
      assert CoerceColumn(init, raw, k) == CoerceColumn(schema, raw, k);
      RecordStopsAt(init, raw, k);
    } else {
      assert init == schema[..k];
    }
  }

  /** The inner loop of the source, building `formatted_record` column by
      column. */
  method FormatRecord(schema: Schema, record: Record) returns (r: Result<Row, PyError>)
    requires DistinctNames(schema)
    ensures r == CoerceRecord(schema, record)
    ensures r.Ok? ==> r.value.Keys == Names(schema)
  {
    var formatted: Row := map[];
    var k := 0;
    while k < |schema|
      invariant 0 <= k <= |schema|
      invariant CoerceRecord(schema[..k], record) == Ok(formatted)
    {
      var column := schema[k];
      var value := Get(record, column.name);
      if column.tag == DateTag && Truthy(value) {
        if !value.Str? {
          RecordStopsAt(schema, record, k);
          return Err(TypeError("strptime() argument 1 must be str, not " + TypeName(value)));
        }
        var parsed := ParseTimestamp(value.s);
        if parsed.None? {
          RecordStopsAt(schema, record, k);
          return Err(ValueError(value.s));
        }
        value := Str(FormatDate(parsed.value.date));
      }
      assert CoerceColumn(schema, record, k) == Ok(value);
      formatted := formatted[column.name := value];
      assert schema[..k + 1][..k] == schema[..k];
      k := k + 1;
    }
    assert schema[..k] == schema;
    return Ok(formatted);
  }

  /** The outer loop of the source, appending each record's row to
      `rows_to_insert`. */
  method FormatRecords(schema: Schema, records: seq<Record>) returns (r: Result<seq<Row>, PyError>)
    requires DistinctNames(schema)
    ensures r == CoerceBatch(schema, records)
    ensures r.Ok? ==> |r.value| == |records|
    ensures r.Ok? ==> forall i :: 0 <= i < |records| ==> r.value[i].Keys == Names(schema)
  {
    var rows: seq<Row> := [];
    var i := 0;
    while i < |records|
      invariant 0 <= i <= |records|
      invariant CoerceBatch(schema, records[..i]) == Ok(rows)
    {
      var formatted := FormatRecord(schema, records[i]);
      if formatted.Err? {
        BatchStopsAt(schema, records, i);
        return formatted.PropagateFailure();
      }
      assert records[..i + 1][..i] == records[..i];
      rows := rows + [formatted.value];
      i := i + 1;
    }
    assert records[..i] == records;
    return Ok(rows);
  }
}
