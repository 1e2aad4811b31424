// The storage keys of rows (executor/mod.rs:340-388, planner/mod.rs:113-137).
module RowKeys {
  import opened Wrappers
  import opened Bytes
  import opened SqlValues
  import opened Exprs
  import opened RowCodec
  import opened CompositeKeys

  // The primary key values of a row, found at the places of their columns and evaluated in turn.
  function KeyValues(like: LikeFn, columns: seq<Exprs.Name>, key: seq<Exprs.Name>, exprs: seq<Expr>): (r: Result<Row>)
    ensures r.Ok? ==> |r.value| == |key|
  {
    if key == [] then Ok([])
    else match Position(columns, key[0])
      case None => Err(ColumnNotFound)
      case Some(i) =>
        if i >= |exprs| then Err(ExecutionError)
        else
          var v :- Evaluate(like, exprs[i], map[]);
          var rest :- KeyValues(like, columns, key[1..], exprs);
          Ok([v] + rest)
  }

  function AllValues(like: LikeFn, exprs: seq<Expr>): Result<Row> {
    if exprs == [] then Ok([])
    else
      var v :- Evaluate(like, exprs[0], map[]);
      var rest :- AllValues(like, exprs[1..]);
      Ok([v] + rest)
  }

  function EncodePart(v: Value): seq<byte> {
    Le(|ToBytes(v)|, 4) + ToBytes(v)
  }

  function EncodeKey(row: Row): seq<byte> {
    if row == [] then [] else EncodePart(row[0]) + EncodeKey(row[1..])
  }

  // The columns of an INSERT: its list, or all of the table.
  function Listed(schema: Schema, columns: Option<seq<Exprs.Name>>): seq<Exprs.Name> {
    if columns.Some? then columns.value else Names(schema)
  }

  function RowKey(like: LikeFn, schema: Schema, columns: Option<seq<Exprs.Name>>, exprs: seq<Expr>): Result<seq<byte>> {
    match schema.primaryKey
    case Some(key) =>
      var row :- KeyValues(like, Listed(schema, columns), key, exprs);
      Ok(EncodeKey(row))
    case None =>
      var row :- AllValues(like, exprs);
      Ok(EncodeRow(row))
  }

  method BuildRowKey(like: LikeFn, schema: Schema, columns: Option<seq<Exprs.Name>>, exprs: seq<Expr>)
    returns (r: Result<seq<byte>>)
    ensures r == RowKey(like, schema, columns, exprs)
  {
    hide Evaluate, ToBytes, Position;
    if schema.primaryKey.Some? {
      var key, names := schema.primaryKey.value, if columns.Some? then columns.value else Names(schema);
      var parts: Row := [];
      ghost var all := KeyValues(like, names, key, exprs);
      assert key[0..] == key;
      if all.Ok? {
        assert parts + all.value == all.value;
      }
      for i := 0 to |key|
        invariant all == Prepend(parts, KeyValues(like, names, key[i..], exprs))
      {
        assert key[i..][1..] == key[i + 1..];
        var at := Position(names, key[i]);
        if at.None? {
          return Err(ColumnNotFound);
        }
        if at.value >= |exprs| {
          return Err(ExecutionError);
        }
        var v :- Evaluate(like, exprs[at.value], map[]);
        PrependOne(parts, v, KeyValues(like, names, key[i + 1..], exprs));
        parts := parts + [v];
      }
      assert parts + [] == parts;
      var bytes := JoinParts(parts);
      return Ok(bytes);
    }
    var data: seq<byte>, done: Row := [], [];
    ghost var all := AllValues(like, exprs);
    assert exprs[0..] == exprs;
    if all.Ok? {
      assert done + all.value == all.value;
    }
    for i := 0 to |exprs|
      invariant all == Prepend(done, AllValues(like, exprs[i..]))
      invariant data == EncodeRow(done)
    {
      assert exprs[i..][1..] == exprs[i + 1..];
      var v :- Evaluate(like, exprs[i], map[]);
      PrependOne(done, v, AllValues(like, exprs[i + 1..]));
      EncodeSnoc(done, v);
      data, done := data + ToBytes(v), done + [v];
    }
    assert done + [] == done;
    r := Ok(data);
  }

  method JoinParts(parts: Row) returns (key: seq<byte>)
    ensures key == EncodeKey(parts)
  {
    hide Le, ToBytes;
    key := [];
    assert parts[0..] == parts;
    for i := 0 to |parts|
      invariant key + EncodeKey(parts[i..]) == EncodeKey(parts)
    {
      assert parts[i..][1..] == parts[i + 1..];
      var part := ToBytes(parts[i]);
      key := key + Le(|part|, 4);
      key := key + part;
    }
    assert key + [] == key;
  }

  // ---------------------------------------------------------------------------
  // Which expressions make up the key
  // ---------------------------------------------------------------------------

  // What an INSERT gives for a column: the value of the expression at the column's place.
  function Given(like: LikeFn, columns: seq<Exprs.Name>, exprs: seq<Expr>, name: Exprs.Name): Result<Value> {
    match Position(columns, name)
    case None => Err(ColumnNotFound)
    case Some(i) => if i >= |exprs| then Err(ExecutionError) else Evaluate(like, exprs[i], map[])
  }

  lemma {:induction false} GivenAt(like: LikeFn, columns: seq<Exprs.Name>, exprs: seq<Expr>, name: Exprs.Name, i: nat)
    requires i < |columns| && columns[i] == name
    requires forall j :: 0 <= j < i ==> columns[j] != name
    ensures Given(like, columns, exprs, name) == if i < |exprs| then Evaluate(like, exprs[i], map[]) else Err(ExecutionError)
  {
    hide Evaluate;
    assert columns[i] in columns;
    assert Position(columns, name) == Some(i);
  }

  // The key values are what the INSERT gives for the key columns, in the order of the key; without
  // one of them there is no key, and the first that is missing decides the error.
  lemma {:induction false} KeyValuesAreGiven(like: LikeFn, columns: seq<Exprs.Name>, key: seq<Exprs.Name>, exprs: seq<Expr>)
    ensures var r := KeyValues(like, columns, key, exprs);
            && (r.Ok? ==> |r.value| == |key| && forall k :: 0 <= k < |key| ==> Given(like, columns, exprs, key[k]) == Ok(r.value[k]))
            && (r.Err? ==> exists k :: 0 <= k < |key| && Given(like, columns, exprs, key[k]) == Err(r.error) &&
                                       forall j :: 0 <= j < k ==> Given(like, columns, exprs, key[j]).Ok?)
  {
    hide Evaluate, Position;
    if key != [] {
      KeyValuesAreGiven(like, columns, key[1..], exprs);
      assert forall k :: 0 < k < |key| ==> key[k] == key[1..][k - 1];
      var first, rest, r := Given(like, columns, exprs, key[0]), KeyValues(like, columns, key[1..], exprs), KeyValues(like, columns, key, exprs);
      if first.Ok? && rest.Err? {
        var k :| 0 <= k < |key[1..]| && Given(like, columns, exprs, key[1..][k]) == Err(rest.error) &&
                 forall j :: 0 <= j < k ==> Given(like, columns, exprs, key[1..][j]).Ok?;
        assert key[k + 1] == key[1..][k];
        forall j | 0 <= j < k + 1
          ensures Given(like, columns, exprs, key[j]).Ok?
        {
          assert j > 0 ==> key[j] == key[1..][j - 1];
        }
      }
    }
  }

  // Without a primary key all expressions count, in their order.
  lemma {:induction false} AllValuesAre(like: LikeFn, exprs: seq<Expr>)
    ensures var r := AllValues(like, exprs);
            && (r.Ok? ==> |r.value| == |exprs| && forall i :: 0 <= i < |exprs| ==> Evaluate(like, exprs[i], map[]) == Ok(r.value[i]))
            && (r.Err? ==> exists i :: 0 <= i < |exprs| && Evaluate(like, exprs[i], map[]) == Err(r.error) &&
                                       forall j :: 0 <= j < i ==> Evaluate(like, exprs[j], map[]).Ok?)
  {
    hide Evaluate;
    if exprs != [] {
      AllValuesAre(like, exprs[1..]);
      assert forall i :: 0 < i < |exprs| ==> exprs[i] == exprs[1..][i - 1];
      var first, rest := Evaluate(like, exprs[0], map[]), AllValues(like, exprs[1..]);
      if first.Ok? && rest.Err? {
        var k :| 0 <= k < |exprs[1..]| && Evaluate(like, exprs[1..][k], map[]) == Err(rest.error) &&
                 forall j :: 0 <= j < k ==> Evaluate(like, exprs[1..][j], map[]).Ok?;
        assert exprs[k + 1] == exprs[1..][k];
        forall j | 0 <= j < k + 1
          ensures Evaluate(like, exprs[j], map[]).Ok?
        {
          assert j > 0 ==> exprs[j] == exprs[1..][j - 1];
        }
      }
    }
  }

  // ---------------------------------------------------------------------------
  // Different rows, different keys
  // ---------------------------------------------------------------------------

  // The bytes of a value, tag and all, have a u32 length.
  ghost predicate Keyable(row: Row) {
    forall i :: 0 <= i < |row| ==> |ToBytes(row[i])| < 0x1_0000_0000
  }

  lemma {:induction false} PartPrefix(v: Value, w: Value, a: seq<byte>, b: seq<byte>)
    requires |ToBytes(v)| < 0x1_0000_0000 && |ToBytes(w)| < 0x1_0000_0000
    requires EncodePart(v) + a == EncodePart(w) + b
    ensures v == w && a == b
  {
    hide Le, FromLe, ToBytes;
    var p, q := ToBytes(v), ToBytes(w);
    var all := EncodePart(v) + a;
    PowValues();
    LeRoundTrip(|p|, 4);
    LeRoundTrip(|q|, 4);
    assert all[..4] == Le(|p|, 4) && all[..4] == Le(|q|, 4);
    assert p == all[4..4 + |p|] && q == all[4..4 + |q|];
    assert a == all[4 + |p|..] && b == all[4 + |q|..];
    StorableBytes(v);
    StorableBytes(w);
    ValueRoundTrip(v, []);
    ValueRoundTrip(w, []);
  }

  lemma {:induction false} StorableBytes(v: Value)
    requires |ToBytes(v)| < 0x1_0000_0000
    ensures Storable(v)
  {
  }

  lemma {:induction false} PartLength(v: Value)
    ensures 4 < |EncodePart(v)|
  {
  }

  // Primary keys are injective on tuples of values, of whatever widths.
  lemma {:induction false} EncodeKeyInjective(a: Row, b: Row)
    requires Keyable(a) && Keyable(b) && EncodeKey(a) == EncodeKey(b)
    ensures a == b
    decreases |a|
  {
    hide EncodePart, ToBytes;
    if a == [] || b == [] {
      if a != [] {
        PartLength(a[0]);
      }
      if b != [] {
        PartLength(b[0]);
      }
    } else {
      PartPrefix(a[0], b[0], EncodeKey(a[1..]), EncodeKey(b[1..]));
      assert forall i :: 0 <= i < |a[1..]| ==> a[1..][i] == a[i + 1];
      assert forall i :: 0 <= i < |b[1..]| ==> b[1..][i] == b[i + 1];
      EncodeKeyInjective(a[1..], b[1..]);
      assert a == [a[0]] + a[1..] && b == [b[0]] + b[1..];
    }
  }

  // Every key column is given a value whose bytes have a u32 length.
  ghost predicate GivesKey(like: LikeFn, schema: Schema, columns: Option<seq<Exprs.Name>>, exprs: seq<Expr>)
    requires schema.primaryKey.Some?
  {
    forall k :: 0 <= k < |schema.primaryKey.value| ==>
      var v := Given(like, Listed(schema, columns), exprs, schema.primaryKey.value[k]);
      v.Ok? && |ToBytes(v.value)| < 0x1_0000_0000
  }

  lemma {:induction false} KeyGiven(like: LikeFn, schema: Schema, columns: Option<seq<Exprs.Name>>, exprs: seq<Expr>) returns (row: Row)
    requires schema.primaryKey.Some? && GivesKey(like, schema, columns, exprs)
    ensures RowKey(like, schema, columns, exprs) == Ok(EncodeKey(row)) && Keyable(row) && |row| == |schema.primaryKey.value|
    ensures forall k :: 0 <= k < |row| ==> Given(like, Listed(schema, columns), exprs, schema.primaryKey.value[k]) == Ok(row[k])
  {
    hide KeyValues, EncodeKey, Given, ToBytes;
    var r := KeyValues(like, Listed(schema, columns), schema.primaryKey.value, exprs);
    KeyValuesAreGiven(like, Listed(schema, columns), schema.primaryKey.value, exprs);
    row := r.value;
  }

  // Two rows of one table get the same key exactly when they are given the same value for every
  // column of the primary key.
  lemma {:induction false} SameKeyExactly(like: LikeFn, schema: Schema, c1: Option<seq<Exprs.Name>>, e1: seq<Expr>,
                                          c2: Option<seq<Exprs.Name>>, e2: seq<Expr>)
    requires schema.primaryKey.Some?
    requires GivesKey(like, schema, c1, e1) && GivesKey(like, schema, c2, e2)
    ensures RowKey(like, schema, c1, e1).Ok? && RowKey(like, schema, c2, e2).Ok?
    ensures RowKey(like, schema, c1, e1) == RowKey(like, schema, c2, e2) <==>
            forall k :: 0 <= k < |schema.primaryKey.value| ==>
              Given(like, Listed(schema, c1), e1, schema.primaryKey.value[k]) == Given(like, Listed(schema, c2), e2, schema.primaryKey.value[k])
  {
    hide RowKey, EncodeKey, Keyable, GivesKey, Given;
    var v1 := KeyGiven(like, schema, c1, e1);
    var v2 := KeyGiven(like, schema, c2, e2);
    if EncodeKey(v1) == EncodeKey(v2) {
      EncodeKeyInjective(v1, v2);
    }
    if forall k :: 0 <= k < |v1| ==> v1[k] == v2[k] {
      assert v1 == v2;
    }
  }

  // In a table without a key list two rows get the same key exactly when they are given the same
  // values throughout.
  lemma {:induction false} SameRowExactly(like: LikeFn, schema: Schema, c1: Option<seq<Exprs.Name>>, e1: seq<Expr>,
                                          c2: Option<seq<Exprs.Name>>, e2: seq<Expr>)
    requires schema.primaryKey.None?
    requires forall i :: 0 <= i < |e1| ==> Evaluate(like, e1[i], map[]).Ok? && Storable(Evaluate(like, e1[i], map[]).value)
    requires forall i :: 0 <= i < |e2| ==> Evaluate(like, e2[i], map[]).Ok? && Storable(Evaluate(like, e2[i], map[]).value)
    ensures RowKey(like, schema, c1, e1).Ok? && RowKey(like, schema, c2, e2).Ok?
    ensures RowKey(like, schema, c1, e1) == RowKey(like, schema, c2, e2) <==>
            |e1| == |e2| && forall i :: 0 <= i < |e1| ==> Evaluate(like, e1[i], map[]) == Evaluate(like, e2[i], map[])
  {
    hide Evaluate, EncodeRow, AllValues;
    AllValuesAre(like, e1);
    AllValuesAre(like, e2);
    var v1, v2 := AllValues(like, e1).value, AllValues(like, e2).value;
    assert forall i :: 0 <= i < |e1| ==> Evaluate(like, e1[i], map[]) == Ok(v1[i]);
    assert forall i :: 0 <= i < |e2| ==> Evaluate(like, e2[i], map[]) == Ok(v2[i]);
    if EncodeRow(v1) == EncodeRow(v2) {
      EncodeInjective(v1, v2);
    }
    if |e1| == |e2| && forall i :: 0 <= i < |e1| ==> Evaluate(like, e1[i], map[]) == Evaluate(like, e2[i], map[]) {
      assert v1 == v2;
    }
  }

  // ---------------------------------------------------------------------------
  // What a full scan can see
  // ---------------------------------------------------------------------------

  // plan_create_table: the names of the flagged columns, in a list that is there even if it is empty.
  function PrimaryKey(columns: seq<Column>): seq<Exprs.Name> {
    if columns == [] then []
    else if columns[0].primaryKey then [columns[0].name] + PrimaryKey(columns[1..])
    else PrimaryKey(columns[1..])
  }

  function PlannedSchema(name: Exprs.Name, columns: seq<Column>): Schema {
    Schema(name, columns, Some(PrimaryKey(columns)))
  }

  // The key lists the names of the flagged columns, all of them and in the order of the table.
  lemma {:induction false} PrimaryKeyIs(columns: seq<Column>) returns (at: seq<nat>)
    ensures forall i, j :: 0 <= i < j < |at| ==> at[i] < at[j]
    ensures |PrimaryKey(columns)| == |at|
    ensures forall k {:trigger at[k]} :: 0 <= k < |at| ==>
              at[k] < |columns| && columns[at[k]].primaryKey && PrimaryKey(columns)[k] == columns[at[k]].name
    ensures forall i :: 0 <= i < |columns| && columns[i].primaryKey ==> i in at
  {
    hide PrimaryKey;
    at := [];
    if columns == [] {
      assert PrimaryKey(columns) == [] by { NoPrimaryKey(columns); }
    } else {
      var n := |columns| - 1;
      PrimaryKeySnoc(columns[..n], columns[n]);
      assert columns == columns[..n] + [columns[n]];
      var before := PrimaryKeyIs(columns[..n]);
      assert forall i :: 0 <= i < n ==> columns[..n][i] == columns[i];
      if columns[n].primaryKey {
        at := before + [n];
        assert at[|before|] == n;
        assert forall k :: 0 <= k < |before| ==> at[k] == before[k];
      } else {
        at := before;
      }
    }
  }

  lemma {:induction false} PrimaryKeySnoc(columns: seq<Column>, c: Column)
    ensures PrimaryKey(columns + [c]) == PrimaryKey(columns) + if c.primaryKey then [c.name] else []
  {
    if columns == [] {
      assert [] + [c] == [c] && [c][1..] == [];
    } else {
      PrimaryKeySnoc(columns[1..], c);
      assert (columns + [c])[1..] == columns[1..] + [c];
    }
  }

  lemma {:induction false} NoPrimaryKey(columns: seq<Column>)
    ensures PrimaryKey(columns) == [] <==> forall i :: 0 <= i < |columns| ==> !columns[i].primaryKey
  {
    if columns != [] {
      NoPrimaryKey(columns[1..]);
      assert forall i :: 0 < i < |columns| ==> columns[i] == columns[1..][i - 1];
      assert forall i :: 0 <= i < |columns| - 1 ==> columns[1..][i] == columns[i + 1];
    }
  }

  // The executor scans a table between two empty keys.  A row it stored lies between them exactly
  // when the table has no primary key, and then every row of the table has that one key.
  lemma {:induction false} FullScanSeesRowExactly(like: LikeFn, name: Exprs.Name, columns: seq<Column>,
                                                  listed: Option<seq<Exprs.Name>>, exprs: seq<Expr>)
    requires RowKey(like, PlannedSchema(name, columns), listed, exprs).Ok?
    ensures var key := RowKey(like, PlannedSchema(name, columns), listed, exprs).value;
            var stored, bound := CompositeKey(name, key), CompositeKey(name, []);
            && (!Less(stored, bound) && !Less(bound, stored) <==> forall i :: 0 <= i < |columns| ==> !columns[i].primaryKey)
            && ((forall i :: 0 <= i < |columns| ==> !columns[i].primaryKey) ==> key == [])
  {
    hide CompositeKey, Less, KeyValues, PrimaryKey;
    var schema := PlannedSchema(name, columns);
    var values := KeyValues(like, Listed(schema, listed), PrimaryKey(columns), exprs).value;
    EmptyBoundsAdmit(name, EncodeKey(values));
    EmptyKeyExactly(values);
    NoPrimaryKey(columns);
  }

  lemma {:induction false} EmptyKeyExactly(row: Row)
    ensures EncodeKey(row) == [] <==> row == []
  {
    if row != [] {
      PartLength(row[0]);
    }
  }
}
