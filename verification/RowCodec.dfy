// Rows as bytes (executor/mod.rs:390-514, types.rs:146-161).
module RowCodec {
  import opened Wrappers
  import opened Bytes
  import opened SqlValues
  import opened Exprs

  datatype Column = Column(name: Name, kind: DataType, nullable: bool, primaryKey: bool)
  datatype Schema = Schema(name: Name, columns: seq<Column>, primaryKey: Option<seq<Name>>)

  type Row = seq<Value>

  function Names(schema: Schema): (r: seq<Name>)
    ensures |r| == |schema.columns|
    ensures forall i :: 0 <= i < |r| ==> r[i] == schema.columns[i].name
  {
    seq(|schema.columns|, i requires 0 <= i < |schema.columns| => schema.columns[i].name)
  }

  // iter().position(): the first place of a name.
  function Position(names: seq<Name>, name: Name): (r: Option<nat>)
    ensures r.Some? ==> r.value < |names| && names[r.value] == name
    ensures r.Some? ==> forall i :: 0 <= i < r.value ==> names[i] != name
    ensures r.None? ==> name !in names
  {
    if names == [] then None
    else if names[0] == name then Some(0)
    else match Position(names[1..], name)
      case None =>
        assert names == [names[0]] + names[1..];
        None
      case Some(i) =>
        assert forall j :: 0 < j < i + 1 ==> names[j] == names[1..][j - 1];
        Some(i + 1)
  }

  ghost predicate Distinct(names: seq<Name>) {
    forall i, j :: 0 <= i < j < |names| ==> names[i] != names[j]
  }

  lemma {:induction false} PositionOf(names: seq<Name>, i: nat)
    requires Distinct(names) && i < |names|
    ensures Position(names, names[i]) == Some(i)
  {
    var p := Position(names, names[i]);
    assert names[i] in names;
  }

  // ---------------------------------------------------------------------------
  // The codec
  // ---------------------------------------------------------------------------

  // The values of an INSERT for the named columns, evaluated and checked one after another.  An
  // expression that is missing would panic.
  function CheckedValues(like: LikeFn, schema: Schema, columns: seq<Name>, exprs: seq<Expr>): (r: Result<Row>)
    ensures r.Ok? ==> |r.value| == |columns| <= |exprs|
  {
    if columns == [] then Ok([])
    else match Position(Names(schema), columns[0])
      case None => Err(ColumnNotFound)
      case Some(p) =>
        if exprs == [] then Err(InternalError)
        else
          var v :- Evaluate(like, exprs[0], map[]);
          if !Fits(v, Maybe(schema.columns[p].kind)) then Err(TypeError)
          else
            var rest :- CheckedValues(like, schema, columns[1..], exprs[1..]);
            Ok([v] + rest)
  }

  function EncodeRow(row: Row): seq<byte> {
    if row == [] then [] else ToBytes(row[0]) + EncodeRow(row[1..])
  }

  // At most `count` values; a row that ends early is a short row.
  function DecodeRow(boolSize: nat, b: seq<byte>, at: nat, count: nat): Result<Row>
    requires boolSize <= 1
    decreases count
  {
    if count == 0 || at >= |b| then Ok([])
    else
      var (v, next) :- ReadValue(boolSize, b, at);
      var rest :- DecodeRow(boolSize, b, next, count - 1);
      Ok([v] + rest)
  }

  ghost function Prepend(done: Row, r: Result<Row>): Result<Row> {
    if r.Err? then r else Ok(done + r.value)
  }

  lemma {:induction false} PrependOne(done: Row, v: Value, r: Result<Row>)
    ensures Prepend(done, Prepend([v], r)) == Prepend(done + [v], r)
  {
    if r.Ok? {
      assert done + ([v] + r.value) == done + [v] + r.value;
    }
  }

  lemma {:induction false} CheckedStep(like: LikeFn, schema: Schema, columns: seq<Name>, exprs: seq<Expr>, i: nat, done: Row)
    requires i < |columns| && i <= |exprs|
    ensures var p := Position(Names(schema), columns[i]);
            var r := Prepend(done, CheckedValues(like, schema, columns[i..], exprs[i..]));
            if p.None? then r == Err(ColumnNotFound)
            else if i == |exprs| then r == Err(InternalError)
            else match Evaluate(like, exprs[i], map[])
              case Err(e) => r == Err(e)
              case Ok(v) =>
                r == if Fits(v, Maybe(schema.columns[p.value].kind))
                     then Prepend(done + [v], CheckedValues(like, schema, columns[i + 1..], exprs[i + 1..]))
                     else Err(TypeError)
  {
    hide Evaluate, Position, Fits;
    if i < |exprs| {
      assert columns[i..][1..] == columns[i + 1..] && exprs[i..][1..] == exprs[i + 1..];
      var v := Evaluate(like, exprs[i], map[]);
      if v.Ok? {
        PrependOne(done, v.value, CheckedValues(like, schema, columns[i + 1..], exprs[i + 1..]));
      }
    }
  }

  lemma {:induction false} NothingChecked(like: LikeFn, schema: Schema, exprs: seq<Expr>)
    ensures CheckedValues(like, schema, [], exprs) == Ok([]) && EncodeRow([]) == []
  {
  }

  method SerializeRow(like: LikeFn, schema: Schema, columns: Option<seq<Name>>, exprs: seq<Expr>)
    returns (r: Result<seq<byte>>)
    ensures var names := if columns.Some? then columns.value else Names(schema);
            var row := CheckedValues(like, schema, names, exprs);
            r == if row.Ok? then Ok(EncodeRow(row.value)) else Err(row.error)
  {
    hide Evaluate, ToBytes, Position, Fits, CheckedValues, EncodeRow;
    var names := if columns.Some? then columns.value else Names(schema);
    var data: seq<byte> := [];
    ghost var all := CheckedValues(like, schema, names, exprs);
    ghost var done: Row := [];
    assert names[0..] == names && exprs[0..] == exprs;
    NothingChecked(like, schema, exprs);
    if all.Ok? {
      assert done + all.value == all.value;
    }
    for i := 0 to |names|
      invariant i <= |exprs|
      invariant all == Prepend(done, CheckedValues(like, schema, names[i..], exprs[i..]))
      invariant data == EncodeRow(done)
    {
      CheckedStep(like, schema, names, exprs, i, done);
      var p := Position(Names(schema), names[i]);
      if p.None? {
        return Err(ColumnNotFound);
      }
      if i >= |exprs| {
        return Err(InternalError);
      }
      var v :- Evaluate(like, exprs[i], map[]);
      if !Fits(v, Maybe(schema.columns[p.value].kind)) {
        return Err(TypeError);
      }
      EncodeSnoc(done, v);
      data := data + ToBytes(v);
      done := done + [v];
    }
    NothingChecked(like, schema, exprs[|names|..]);
    assert done + [] == done;
    r := Ok(data);
  }

  // NULL, or a value of the kind of the column.
  predicate OfKind(v: Value, kind: DataType) {
    match v
    case Null => true
    case Integer(_) => kind == IntegerType
    case Text(_) => kind == TextType
    case Boolean(_) => kind == BooleanType
  }

  // A value that may be stored under this name, which is that of the column's first mention.
  predicate StoresAs(v: Result<Value>, schema: Schema, name: Name) {
    v.Ok? && exists p :: 0 <= p < |schema.columns| && schema.columns[p].name == name && OfKind(v.value, schema.columns[p].kind) &&
                         forall q :: 0 <= q < p ==> schema.columns[q].name != name
  }

  // An INSERT is accepted exactly when there is an expression for every name, the name is a column
  // and the value is of its kind; what is stored then is the values of the expressions, in order.
  lemma {:induction false} CheckedAreEvaluated(like: LikeFn, schema: Schema, columns: seq<Name>, exprs: seq<Expr>)
    ensures var r := CheckedValues(like, schema, columns, exprs);
            && (r.Ok? <==> |columns| <= |exprs| &&
                           forall i :: 0 <= i < |columns| ==> StoresAs(Evaluate(like, exprs[i], map[]), schema, columns[i]))
            && (r.Ok? ==> forall i :: 0 <= i < |columns| ==> Evaluate(like, exprs[i], map[]) == Ok(r.value[i]))
  {
    hide Evaluate, Position, StoresAs, Fits;
    if columns != [] && exprs != [] {
      CheckedAreEvaluated(like, schema, columns[1..], exprs[1..]);
      StoresAsFits(Evaluate(like, exprs[0], map[]), schema, columns[0]);
      assert forall i :: 0 < i < |columns| ==> columns[i] == columns[1..][i - 1];
      assert forall i :: 0 < i < |exprs| ==> exprs[i] == exprs[1..][i - 1];
      assert forall i :: 0 <= i < |columns| - 1 ==> columns[1..][i] == columns[i + 1];
      assert forall i :: 0 <= i < |exprs| - 1 ==> exprs[1..][i] == exprs[i + 1];
    }
  }

  lemma {:induction false} StoresAsFits(v: Result<Value>, schema: Schema, name: Name)
    ensures var p := Position(Names(schema), name);
            StoresAs(v, schema, name) <==> v.Ok? && p.Some? && Fits(v.value, Maybe(schema.columns[p.value].kind))
  {
    var p := Position(Names(schema), name);
    if v.Ok? && p.Some? {
      assert schema.columns[p.value].name == name;
    }
    if StoresAs(v, schema, name) {
      var q :| 0 <= q < |schema.columns| && schema.columns[q].name == name && OfKind(v.value, schema.columns[q].kind) &&
               forall j :: 0 <= j < q ==> schema.columns[j].name != name;
      assert Names(schema)[q] == name;
      assert p.Some? && p.value == q;
    }
  }

  lemma {:induction false} EncodeSnoc(row: Row, v: Value)
    ensures EncodeRow(row + [v]) == EncodeRow(row) + ToBytes(v)
  {
    hide ToBytes;
    if row == [] {
      assert [] + [v] == [v] && [v][1..] == [];
    } else {
      EncodeSnoc(row[1..], v);
      assert (row + [v])[1..] == row[1..] + [v];
    }
  }

  // deserialize_row, for Booleans of either size.
  method DeserializeRow(boolSize: nat, schema: Schema, b: seq<byte>) returns (r: Result<Row>)
    requires boolSize <= 1
    ensures r == DecodeRow(boolSize, b, 0, |schema.columns|)
  {
    hide ReadValue;
    var values: Row, cursor: nat := [], 0;
    var count := |schema.columns|;
    ghost var all := DecodeRow(boolSize, b, 0, count);
    if all.Ok? {
      assert values + all.value == all.value;
    }
    for i := 0 to count
      invariant all == Prepend(values, DecodeRow(boolSize, b, cursor, count - i))
    {
      if cursor >= |b| {
        break;
      }
      var next :- ReadValue(boolSize, b, cursor);
      PrependOne(values, next.0, DecodeRow(boolSize, b, next.1, count - i - 1));
      values, cursor := values + [next.0], next.1;
    }
    assert values + [] == values;
    r := Ok(values);
  }

  // ---------------------------------------------------------------------------
  // Round trips
  // ---------------------------------------------------------------------------

  ghost predicate AllStorable(row: Row) {
    forall i :: 0 <= i < |row| ==> Storable(row[i])
  }

  lemma {:induction false} DecodeEncoded(pre: seq<byte>, row: Row, count: nat)
    requires AllStorable(row) && |row| <= count
    ensures DecodeRow(1, pre + EncodeRow(row), |pre|, count) == Ok(row)
    decreases |row|
  {
    hide ReadValue, ToBytes;
    if row != [] {
      var b, v := pre + EncodeRow(row), ToBytes(row[0]);
      BytesNonempty(row[0]);
      assert b == pre + v + EncodeRow(row[1..]);
      ReadBackValue(1, pre, row[0], EncodeRow(row[1..]));
      assert forall i :: 0 <= i < |row[1..]| ==> row[1..][i] == row[i + 1];
      DecodeEncoded(pre + v, row[1..], count - 1);
      assert row == [row[0]] + row[1..];
    }
  }

  // Once the cursor moves past Booleans, every row is read back as it was written.
  lemma {:induction false} RowRoundTrip(row: Row, count: nat)
    requires AllStorable(row) && |row| <= count
    ensures DecodeRow(1, EncodeRow(row), 0, count) == Ok(row)
  {
    hide ReadValue, ToBytes;
    assert [] + EncodeRow(row) == EncodeRow(row);
    DecodeEncoded([], row, count);
  }

  // What the byte of a Boolean looks like when it is taken for a tag: NULL for false, and for true
  // an integer, which comes out right only if all its bytes are 1.
  function Echo(b: bool): Value {
    if b then Integer(0x0101_0101_0101_0101) else Null
  }

  // No Boolean has a column behind it, except for columns that are its echo.
  predicate ReadsBack(row: Row) {
    row == [] ||
    if row[0].Boolean? then forall i :: 1 <= i < |row| ==> row[i] == Echo(row[0].b) else ReadsBack(row[1..])
  }

  lemma {:induction false} AllOnes()
    ensures Le(0x0101_0101_0101_0101, 8) == [1, 1, 1, 1, 1, 1, 1, 1]
  {
    var n8 := 0x0101_0101_0101_0101;
    assert Le(1, 1) == [1] + Le(0, 0);
    assert Le(0x0101, 2) == [1] + Le(1, 1);
    assert Le(0x01_0101, 3) == [1] + Le(0x0101, 2);
    assert Le(0x0101_0101, 4) == [1] + Le(0x01_0101, 3);
    assert Le(0x01_0101_0101, 5) == [1] + Le(0x0101_0101, 4);
    assert Le(0x0101_0101_0101, 6) == [1] + Le(0x01_0101_0101, 5);
    assert Le(0x01_0101_0101_0101, 7) == [1] + Le(0x0101_0101_0101, 6);
    assert Le(n8, 8) == [1] + Le(0x01_0101_0101_0101, 7);
  }

  // An integer that reads the same one byte early consists of ones.
  lemma {:induction false} ShiftedInteger(i: i64)
    ensures ReadInteger([1] + Le(Unsigned(i), 8)[..7]) == i <==> Integer(i) == Echo(true)
  {
    hide Le, FromLe;
    var bytes := Le(Unsigned(i), 8);
    var early := [1] + bytes[..7];
    PowValues();
    AllOnes();
    LeRoundTrip(Unsigned(i), 8);
    FromLeRoundTrip(early);
    if ReadInteger(early) == i {
      assert Le(FromLe(early), 8) == early;
      assert FromLe(early) == Unsigned(i);
      assert early == bytes;
      assert bytes[0] == early[0] == 1;
      assert bytes[1] == early[1] == bytes[0];
      assert bytes[2] == early[2] == bytes[1];
      assert bytes[3] == early[3] == bytes[2];
      assert bytes[4] == early[4] == bytes[3];
      assert bytes[5] == early[5] == bytes[4];
      assert bytes[6] == early[6] == bytes[5];
      assert bytes[7] == early[7] == bytes[6];
      assert bytes == [1, 1, 1, 1, 1, 1, 1, 1];
      LeRoundTrip(0x0101_0101_0101_0101, 8);
    }
    if Integer(i) == Echo(true) {
      assert early == bytes;
    }
  }

  // Reading one byte early, behind a Boolean whose byte is x.
  lemma {:induction false} ReadEarly(pre: seq<byte>, x: bool, row: Row)
    requires pre != [] && pre[|pre| - 1] == (if x then 1 else 0) && AllStorable(row)
    ensures DecodeRow(0, pre + EncodeRow(row), |pre| - 1, |row|) == Ok(row) <==> forall i :: 0 <= i < |row| ==> row[i] == Echo(x)
    decreases |row|
  {
    hide ReadValue, ToBytes, Echo;
    if row != [] {
      var b, at := pre + EncodeRow(row), |pre| - 1;
      assert forall i :: 0 <= i < |row[1..]| ==> row[1..][i] == row[i + 1];
      assert row == [row[0]] + row[1..];
      EarlyValue(pre, x, row);
      if row[0] == Echo(x) {
        var pre' := pre + ToBytes(row[0]);
        assert pre' + EncodeRow(row[1..]) == b;
        EchoBytes(x);
        ReadEarly(pre', x, row[1..]);
      }
    }
  }

  lemma {:induction false} EchoBytes(x: bool)
    ensures var bytes := ToBytes(Echo(x));
            bytes != [] && bytes[|bytes| - 1] == (if x then 1 else 0) && |bytes| == if x then 9 else 1
  {
    AllOnes();
  }

  lemma {:induction false} EarlyValue(pre: seq<byte>, x: bool, row: Row)
    requires pre != [] && pre[|pre| - 1] == (if x then 1 else 0) && row != []
    ensures var r := ReadValue(0, pre + EncodeRow(row), |pre| - 1);
            && (r.Ok? && r.value.0 == row[0] <==> row[0] == Echo(x))
            && (row[0] == Echo(x) ==> r.value.1 == |pre| + |ToBytes(row[0])| - 1)
  {
    hide Le, FromLe, ReadInteger, Utf8;
    var b, at := pre + EncodeRow(row), |pre| - 1;
    assert b[at] == if x then 1 else 0;
    if x {
      if row[0].Integer? {
        var bytes := ToBytes(row[0]);
        assert b[at + 1..at + 9] == bytes[..8];
        assert bytes[..8] == [1] + Le(Unsigned(row[0].i), 8)[..7];
        ShiftedInteger(row[0].i);
      }
    }
  }

  lemma {:induction false} DecodeNothing(boolSize: nat, b: seq<byte>, at: nat)
    requires boolSize <= 1
    ensures DecodeRow(boolSize, b, at, 0) == Ok([])
  {
  }

  lemma {:induction false} DecodeStep(boolSize: nat, b: seq<byte>, at: nat, row: Row)
    requires boolSize <= 1 && at < |b| && row != [] && ReadValue(boolSize, b, at).Ok?
    ensures var (v, next) := ReadValue(boolSize, b, at).value;
            DecodeRow(boolSize, b, at, |row|) == Ok(row) <==>
            v == row[0] && DecodeRow(boolSize, b, next, |row[1..]|) == Ok(row[1..])
  {
    hide ReadValue;
    assert row == [row[0]] + row[1..];
  }

  lemma {:induction false} DecodeAsWritten(pre: seq<byte>, row: Row)
    requires AllStorable(row)
    ensures DecodeRow(0, pre + EncodeRow(row), |pre|, |row|) == Ok(row) <==> ReadsBack(row)
    decreases |row|
  {
    hide ReadValue, ToBytes, DecodeRow;
    if row == [] {
      DecodeNothing(0, pre + EncodeRow(row), |pre|);
    } else {
      var b, v := pre + EncodeRow(row), ToBytes(row[0]);
      BytesNonempty(row[0]);
      assert b == pre + v + EncodeRow(row[1..]);
      ReadBackValue(0, pre, row[0], EncodeRow(row[1..]));
      assert forall i :: 0 <= i < |row[1..]| ==> row[1..][i] == row[i + 1];
      DecodeStep(0, b, |pre|, row);
      if row[0].Boolean? {
        BooleanBytes(row[0].b);
        ReadEarly(pre + v, row[0].b, row[1..]);
        assert forall i :: 1 <= i < |row| ==> row[i] == row[1..][i - 1];
      } else {
        DecodeAsWritten(pre + v, row[1..]);
      }
    }
  }

  lemma {:induction false} BooleanBytes(b: bool)
    ensures ToBytes(Boolean(b)) == [3, if b then 1 else 0]
  {
  }

  // As written the cursor stays on the byte of a Boolean.  A row is then read back as it was
  // written exactly when no Boolean has a column behind it that is not its echo.
  lemma {:induction false} RowRoundTripExactly(row: Row)
    requires AllStorable(row)
    ensures DecodeRow(0, EncodeRow(row), 0, |row|) == Ok(row) <==> ReadsBack(row)
  {
    hide ReadValue, ToBytes, ReadsBack;
    assert [] + EncodeRow(row) == EncodeRow(row);
    DecodeAsWritten([], row);
  }

  // The values of the expressions of an INSERT, each in the place of its name.
  ghost predicate Evaluated(like: LikeFn, names: seq<Name>, exprs: seq<Expr>, row: Row) {
    |row| == |names| <= |exprs| && forall i :: 0 <= i < |names| ==> Evaluate(like, exprs[i], map[]) == Ok(row[i])
  }

  // What is stored is what is loaded: an accepted row comes back as the values of its expressions,
  // provided the cursor moves past Booleans; as written that takes a full row that reads back.
  method StoreThenLoad(like: LikeFn, schema: Schema, columns: Option<seq<Name>>, exprs: seq<Expr>, boolSize: nat)
    returns (stored: Result<seq<byte>>, r: Result<Row>)
    requires boolSize <= 1
    ensures var names := if columns.Some? then columns.value else Names(schema);
            stored.Ok? <==> |names| <= |exprs| &&
                            forall i :: 0 <= i < |names| ==> StoresAs(Evaluate(like, exprs[i], map[]), schema, names[i])
    ensures var names := if columns.Some? then columns.value else Names(schema);
            forall row :: stored.Ok? && Evaluated(like, names, exprs, row) && AllStorable(row) ==>
              && (boolSize == 1 && |names| <= |schema.columns| ==> r == Ok(row))
              && (boolSize == 0 && |names| == |schema.columns| ==> (r == Ok(row) <==> ReadsBack(row)))
  {
    hide Evaluate, CheckedValues, StoresAs, EncodeRow, DecodeRow, ReadsBack, AllStorable;
    stored := SerializeRow(like, schema, columns, exprs);
    ghost var names := if columns.Some? then columns.value else Names(schema);
    CheckedAreEvaluated(like, schema, names, exprs);
    if stored.Err? {
      return stored, Err(InternalError);
    }
    r := DeserializeRow(boolSize, schema, stored.value);
    ghost var row := CheckedValues(like, schema, names, exprs).value;
    if AllStorable(row) {
      if boolSize == 1 && |names| <= |schema.columns| {
        RowRoundTrip(row, |schema.columns|);
      }
      if boolSize == 0 && |names| == |schema.columns| {
        RowRoundTripExactly(row);
      }
    }
    forall other | Evaluated(like, names, exprs, other)
      ensures other == row
    {
      assert forall i :: 0 <= i < |names| ==> Ok(other[i]) == Evaluate(like, exprs[i], map[]) == Ok(row[i]);
    }
  }

  // Rows are self-delimiting, so different rows of one width have different bytes.
  lemma {:induction false} EncodeInjective(a: Row, b: Row)
    requires AllStorable(a) && AllStorable(b) && EncodeRow(a) == EncodeRow(b)
    ensures a == b
  {
    hide EncodeRow, DecodeRow;
    var count := if |a| <= |b| then |b| else |a|;
    RowRoundTrip(a, count);
    RowRoundTrip(b, count);
  }

  // ---------------------------------------------------------------------------
  // Reading a row by column name
  // ---------------------------------------------------------------------------

  // The column `name` of a decoded row: the scan looks it up at its place in the schema.
  function Pick(names: seq<Name>, row: Row, name: Name): Option<Value> {
    match Position(names, name)
    case Some(p) => if p < |row| then Some(row[p]) else None
    case None => None
  }

  // Whatever row is stored for these columns, each value is found again under its column's name.
  ghost predicate FoundUnderNames(names: seq<Name>, columns: seq<Name>) {
    forall row: Row, i :: |row| == |columns| && 0 <= i < |columns| ==> Pick(names, row, columns[i]) == Some(row[i])
  }

  // An INSERT with a column list stores the values in the order of that list.  They are found again
  // under their names, whatever they are, exactly when the list is a beginning of the schema.
  lemma {:induction false} ColumnListReadsBackExactly(names: seq<Name>, columns: seq<Name>)
    requires Distinct(names) && |columns| < TWO_63
    ensures FoundUnderNames(names, columns) <==> columns <= names
  {
    hide Position;
    if columns <= names {
      forall row: Row, i | |row| == |columns| && 0 <= i < |columns|
        ensures Pick(names, row, columns[i]) == Some(row[i])
      {
        PositionOf(names, i);
      }
    }
    if FoundUnderNames(names, columns) {
      ListIsPrefix(names, columns);
    }
  }

  lemma {:induction false} ListIsPrefix(names: seq<Name>, columns: seq<Name>)
    requires FoundUnderNames(names, columns) && |columns| < TWO_63
    ensures columns <= names
  {
    hide Position;
    var row: Row := seq(|columns|, i requires 0 <= i < |columns| => Integer(i));
    forall i | 0 <= i < |columns|
      ensures i < |names| && names[i] == columns[i]
    {
      assert Pick(names, row, columns[i]) == Some(row[i]);
      var p := Position(names, columns[i]).value;
      assert row[p] == Integer(p) && row[i] == Integer(i);
    }
    if columns != [] {
      assert columns[|columns| - 1] in columns;
    }
  }

  // ---------------------------------------------------------------------------
  // Rows and well-typed predicates
  // ---------------------------------------------------------------------------

  // evaluate_filter's mapping from column names to values; a later column of the same name wins.
  function ContextOf(columns: seq<Name>, row: Row): Context {
    if columns == [] then map[]
    else
      var n := |columns| - 1;
      var before := ContextOf(columns[..n], row);
      if n < |row| then before[columns[n] := row[n]] else before
  }

  // A column is there exactly when the row has a value for it, and has the value of its last mention.
  lemma {:induction false} ContextHas(columns: seq<Name>, row: Row, c: Name)
    ensures c in ContextOf(columns, row) <==> exists i :: 0 <= i < |columns| && i < |row| && columns[i] == c
    ensures c in ContextOf(columns, row) ==>
              exists i :: 0 <= i < |columns| && i < |row| && columns[i] == c && ContextOf(columns, row)[c] == row[i] &&
                          forall j :: i < j < |columns| && j < |row| ==> columns[j] != c
  {
    if columns != [] {
      var n := |columns| - 1;
      var before, after := ContextOf(columns[..n], row), ContextOf(columns, row);
      ContextHas(columns[..n], row, c);
      if n < |row| && columns[n] == c {
        assert after[c] == row[n];
      } else {
        assert c in after <==> c in before;
        assert forall i :: 0 <= i < n ==> columns[..n][i] == columns[i];
      }
    }
  }

  function TypesOf(schema: Schema): Types {
    map c | c in Names(schema) :: schema.columns[Position(Names(schema), c).value].kind
  }

  ghost predicate RowFits(schema: Schema, row: Row) {
    |row| == |schema.columns| && forall i :: 0 <= i < |row| ==> Fits(row[i], Maybe(schema.columns[i].kind))
  }

  lemma {:induction false} CheckedFit(like: LikeFn, schema: Schema, columns: seq<Name>, exprs: seq<Expr>, i: nat)
    requires CheckedValues(like, schema, columns, exprs).Ok? && i < |columns|
    ensures var p := Position(Names(schema), columns[i]);
            p.Some? && Fits(CheckedValues(like, schema, columns, exprs).value[i], Maybe(schema.columns[p.value].kind))
    decreases i
  {
    hide Evaluate;
    if i > 0 {
      CheckedFit(like, schema, columns[1..], exprs[1..], i - 1);
    }
  }

  lemma {:induction false} RowMatches(schema: Schema, row: Row)
    requires Distinct(Names(schema)) && RowFits(schema, row)
    ensures Matches(TypesOf(schema), ContextOf(Names(schema), row))
  {
    hide Position, ContextOf;
    var names := Names(schema);
    forall c | c in TypesOf(schema)
      ensures c in ContextOf(names, row) && Fits(ContextOf(names, row)[c], Maybe(TypesOf(schema)[c]))
    {
      var p := Position(names, c).value;
      ContextHas(names, row, c);
      assert names[p] == c;
      var i :| 0 <= i < |names| && i < |row| && names[i] == c && ContextOf(names, row)[c] == row[i];
      assert i == p;
    }
  }

  // A row that an INSERT without a column list accepted, stored and read back, makes every
  // well-typed predicate evaluate without an error, NULLs included; as the decoder is written this
  // takes a row that reads back.
  lemma {:induction false} AcceptedRowsEvaluate(like: LikeFn, schema: Schema, exprs: seq<Expr>, e: Expr, boolSize: nat)
    requires Distinct(Names(schema)) && boolSize <= 1
    requires Simple(e) && Check(TypesOf(schema), e).Some?
    requires var row := CheckedValues(like, schema, Names(schema), exprs);
             row.Ok? && AllStorable(row.value) && (boolSize == 1 || ReadsBack(row.value))
    ensures var row := CheckedValues(like, schema, Names(schema), exprs).value;
            && DecodeRow(boolSize, EncodeRow(row), 0, |schema.columns|) == Ok(row)
            && EvaluateBoolean(like, e, ContextOf(Names(schema), row)).Ok?
  {
    hide Evaluate, CheckedValues, EncodeRow, DecodeRow, ReadsBack, Check, Position, TypesOf;
    var row := CheckedValues(like, schema, Names(schema), exprs).value;
    if boolSize == 1 {
      RowRoundTrip(row, |schema.columns|);
    } else {
      RowRoundTripExactly(row);
    }
    forall i | 0 <= i < |row|
      ensures Fits(row[i], Maybe(schema.columns[i].kind))
    {
      CheckedFit(like, schema, Names(schema), exprs, i);
      PositionOf(Names(schema), i);
    }
    RowMatches(schema, row);
    WellTypedEvaluates(like, TypesOf(schema), e, ContextOf(Names(schema), row));
  }
}
