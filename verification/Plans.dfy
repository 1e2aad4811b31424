// SELECT: what the planner emits and what the executor makes of it (planner/mod.rs:173-275,
// executor/mod.rs:144-212).
module Plans {
  import opened Wrappers
  import opened Bytes
  import opened SqlValues
  import opened Exprs
  import opened RowCodec

  datatype SelectItem = Wildcard | Item(expr: Expr, alias: Option<Name>)

  datatype Plan =
    | Scan(columns: seq<Name>, filter: Option<Expr>, schema: Schema)
    | Filter(input: Plan, test: Expr)

  // ---------------------------------------------------------------------------
  // Planning
  // ---------------------------------------------------------------------------

  // The result columns; an alias replaces the name of the column it stands for.
  function ResolveItems(items: seq<SelectItem>, schema: Schema): Result<seq<Name>> {
    if items == [] then Ok([])
    else
      var first :- ResolveItem(items[0], schema);
      var rest :- ResolveItems(items[1..], schema);
      Ok(first + rest)
  }

  function ResolveItem(item: SelectItem, schema: Schema): Result<seq<Name>> {
    match item
    case Wildcard => Ok(Names(schema))
    case Item(expr, alias) =>
      if !expr.ColumnRef? then Err(PlannerError)
      else if expr.column !in Names(schema) then Err(ColumnNotFound)
      else Ok([if alias.Some? then alias.value else expr.column])
  }

  function PlanSelect(items: seq<SelectItem>, filter: Option<Expr>, schema: Schema): Result<Plan> {
    var columns :- ResolveItems(items, schema);
    var scan := Scan(columns, filter, schema);
    Ok(if filter.Some? then Filter(scan, filter.value) else scan)
  }

  ghost function Behind(done: seq<Name>, r: Result<seq<Name>>): Result<seq<Name>> {
    if r.Err? then r else Ok(done + r.value)
  }

  lemma {:induction false} NothingToResolve(schema: Schema)
    ensures ResolveItems([], schema) == Ok([])
  {
  }

  lemma {:induction false} ResolveStep(done: seq<Name>, items: seq<SelectItem>, schema: Schema)
    requires items != []
    ensures Behind(done, ResolveItems(items, schema)) ==
            var first := ResolveItem(items[0], schema);
            if first.Err? then Err(first.error) else Behind(done + first.value, ResolveItems(items[1..], schema))
  {
    hide ResolveItem;
    var first, rest := ResolveItem(items[0], schema), ResolveItems(items[1..], schema);
    if first.Ok? && rest.Ok? {
      assert done + (first.value + rest.value) == done + first.value + rest.value;
    }
  }

  method ResolveSelectItems(items: seq<SelectItem>, schema: Schema) returns (r: Result<seq<Name>>)
    ensures r == ResolveItems(items, schema)
  {
    hide ResolveItems;
    NothingToResolve(schema);
    var columns: seq<Name> := [];
    assert items[0..] == items;
    ghost var all := ResolveItems(items, schema);
    if all.Ok? {
      assert columns + all.value == all.value;
    }
    for i := 0 to |items|
      invariant all == Behind(columns, ResolveItems(items[i..], schema))
    {
      assert items[i..][1..] == items[i + 1..];
      ResolveStep(columns, items[i..], schema);
      match items[i] {
        case Wildcard =>
          columns := columns + Names(schema);
        case Item(expr, alias) =>
          if !expr.ColumnRef? {
            return Err(PlannerError);
          }
          if expr.column !in Names(schema) {
            return Err(ColumnNotFound);
          }
          columns := columns + [if alias.Some? then alias.value else expr.column];
      }
    }
    assert columns + [] == columns;
    r := Ok(columns);
  }

  // Every item that is not * is one heading: its alias, or else the name of its column, which has to
  // be a column of the table.
  lemma {:induction false} HeadingsAre(items: seq<SelectItem>, schema: Schema)
    requires forall i :: 0 <= i < |items| ==> items[i].Item?
    ensures var r := ResolveItems(items, schema);
            && (r.Ok? <==> forall i :: 0 <= i < |items| ==>
                             items[i].expr.ColumnRef? && exists p :: 0 <= p < |schema.columns| && schema.columns[p].name == items[i].expr.column)
            && (r.Ok? ==> |r.value| == |items| && forall i :: 0 <= i < |items| ==>
                            r.value[i] == match items[i].alias case Some(a) => a case None => items[i].expr.column)
  {
    if items != [] {
      HeadingsAre(items[1..], schema);
      assert forall i :: 0 < i < |items| ==> items[i] == items[1..][i - 1];
      assert forall i :: 0 <= i < |items| - 1 ==> items[1..][i] == items[i + 1];
      ResolveOne(items[0], schema);
    }
  }

  lemma {:induction false} ResolveOne(item: SelectItem, schema: Schema)
    requires item.Item?
    ensures var r := ResolveItem(item, schema);
            && (r.Ok? <==> item.expr.ColumnRef? && exists p :: 0 <= p < |schema.columns| && schema.columns[p].name == item.expr.column)
            && (r.Ok? ==> r.value == [match item.alias case Some(a) => a case None => item.expr.column])
  {
    if item.expr.ColumnRef? {
      if p :| 0 <= p < |schema.columns| && schema.columns[p].name == item.expr.column {
        assert Names(schema)[p] == item.expr.column;
      }
    }
  }

  lemma {:induction false} ResolveWildcard(schema: Schema)
    ensures ResolveItem(Wildcard, schema) == Ok(Names(schema))
  {
  }

  // * stands for all columns, wherever it is.
  lemma {:induction false} WildcardMeansAll(before: seq<SelectItem>, behind: seq<SelectItem>, schema: Schema)
    requires ResolveItems(before, schema).Ok? && ResolveItems(behind, schema).Ok?
    ensures ResolveItems(before + [Wildcard] + behind, schema) ==
            Ok(ResolveItems(before, schema).value + Names(schema) + ResolveItems(behind, schema).value)
    decreases |before|
  {
    hide ResolveItem;
    var items := before + [Wildcard] + behind;
    if before == [] {
      assert items[0] == Wildcard && items[1..] == behind;
      assert ResolveItem(Wildcard, schema) == Ok(Names(schema)) by { ResolveWildcard(schema); }
      assert [] + Names(schema) == Names(schema);
    } else {
      assert items[0] == before[0] && items[1..] == before[1..] + [Wildcard] + behind;
      WildcardMeansAll(before[1..], behind, schema);
      var first, rest := ResolveItem(before[0], schema).value, ResolveItems(before[1..], schema).value;
      var all := ResolveItems(behind, schema).value;
      assert first + (rest + Names(schema) + all) == first + rest + Names(schema) + all;
    }
  }

  // ---------------------------------------------------------------------------
  // Execution
  // ---------------------------------------------------------------------------

  // The selected columns of a row; names the schema does not know are skipped, an empty selection
  // is the whole row, and a row too short for a column would panic.
  function SelectRow(names: seq<Name>, columns: seq<Name>, row: Row): Result<Row> {
    if columns == [] then Ok(row) else Project(names, columns, row)
  }

  function Project(names: seq<Name>, columns: seq<Name>, row: Row): Result<Row> {
    if columns == [] then Ok([])
    else match Position(names, columns[0])
      case None => Project(names, columns[1..], row)
      case Some(p) =>
        if p >= |row| then Err(InternalError)
        else
          var rest :- Project(names, columns[1..], row);
          Ok([row[p]] + rest)
  }

  // evaluate_filter
  function Passes(like: LikeFn, filter: Option<Expr>, columns: seq<Name>, row: Row): Result<bool> {
    if filter.None? then Ok(true) else EvaluateBoolean(like, filter.value, ContextOf(columns, row))
  }

  // execute_scan, given the stored rows that the storage scan returns: each is decoded, reduced to
  // the selected columns and then filtered, and the first error ends it all.
  function ScanAll(like: LikeFn, schema: Schema, columns: seq<Name>, filter: Option<Expr>, stored: seq<seq<byte>>, boolSize: nat)
    : Result<seq<Row>>
    requires boolSize <= 1
  {
    if stored == [] then Ok([])
    else
      var row :- DecodeRow(boolSize, stored[0], 0, |schema.columns|);
      var selected :- SelectRow(Names(schema), columns, row);
      var keep :- Passes(like, filter, columns, selected);
      var rest :- ScanAll(like, schema, columns, filter, stored[1..], boolSize);
      Ok((if keep then [selected] else []) + rest)
  }

  // rows.retain(...): an evaluation error counts as false.
  function Retain(like: LikeFn, test: Expr, columns: seq<Name>, rows: seq<Row>): seq<Row> {
    if rows == [] then []
    else (if EvaluateBoolean(like, test, ContextOf(columns, rows[0])) == Ok(true) then [rows[0]] else [])
         + Retain(like, test, columns, rows[1..])
  }

  function Execute(like: LikeFn, plan: Plan, stored: seq<seq<byte>>, boolSize: nat): Result<(seq<Name>, seq<Row>)>
    requires boolSize <= 1
  {
    match plan
    case Scan(columns, filter, schema) =>
      var rows :- ScanAll(like, schema, columns, filter, stored, boolSize);
      Ok((columns, rows))
    case Filter(input, test) =>
      var (columns, rows) :- Execute(like, input, stored, boolSize);
      Ok((columns, Retain(like, test, columns, rows)))
  }

  ghost function Collected(done: seq<Row>, r: Result<seq<Row>>): Result<seq<Row>> {
    if r.Err? then r else Ok(done + r.value)
  }

  lemma {:induction false} CollectMore(done: seq<Row>, more: seq<Row>, r: Result<seq<Row>>)
    ensures Collected(done, Collected(more, r)) == Collected(done + more, r)
  {
    if r.Ok? {
      assert done + (more + r.value) == done + more + r.value;
    }
  }

  method ExecuteScan(like: LikeFn, schema: Schema, columns: seq<Name>, filter: Option<Expr>, stored: seq<seq<byte>>, boolSize: nat)
    returns (r: Result<seq<Row>>)
    requires boolSize <= 1
    ensures r == ScanAll(like, schema, columns, filter, stored, boolSize)
  {
    hide DecodeRow, SelectRow, Passes;
    var rows: seq<Row> := [];
    ghost var all := ScanAll(like, schema, columns, filter, stored, boolSize);
    assert stored[0..] == stored;
    if all.Ok? {
      assert rows + all.value == all.value;
    }
    for i := 0 to |stored|
      invariant all == Collected(rows, ScanAll(like, schema, columns, filter, stored[i..], boolSize))
    {
      assert stored[i..][1..] == stored[i + 1..];
      var row :- DeserializeRow(boolSize, schema, stored[i]);
      var selected :- SelectColumns(Names(schema), columns, row);
      var keep :- Passes(like, filter, columns, selected);
      CollectMore(rows, if keep then [selected] else [], ScanAll(like, schema, columns, filter, stored[i + 1..], boolSize));
      if keep {
        rows := rows + [selected];
      }
      assert keep || rows + [] == rows;
    }
    assert rows + [] == rows;
    r := Ok(rows);
  }

  method SelectColumns(names: seq<Name>, columns: seq<Name>, row: Row) returns (r: Result<Row>)
    ensures r == SelectRow(names, columns, row)
  {
    hide Position;
    if columns == [] {
      return Ok(row);
    }
    var selected: Row := [];
    assert columns[0..] == columns;
    ghost var all := Project(names, columns, row);
    if all.Ok? {
      assert selected + all.value == all.value;
    }
    for i := 0 to |columns|
      invariant all == Prepend(selected, Project(names, columns[i..], row))
    {
      assert columns[i..][1..] == columns[i + 1..];
      var p := Position(names, columns[i]);
      if p.Some? {
        if p.value >= |row| {
          return Err(InternalError);
        }
        PrependOne(selected, row[p.value], Project(names, columns[i + 1..], row));
        selected := selected + [row[p.value]];
      }
    }
    assert selected + [] == selected;
    r := Ok(selected);
  }

  // ---------------------------------------------------------------------------
  // The filter is applied twice
  // ---------------------------------------------------------------------------

  lemma {:induction false} ScanIsRetained(like: LikeFn, schema: Schema, columns: seq<Name>, test: Expr,
                                          stored: seq<seq<byte>>, boolSize: nat)
    requires boolSize <= 1 && ScanAll(like, schema, columns, Some(test), stored, boolSize).Ok?
    ensures var rows := ScanAll(like, schema, columns, Some(test), stored, boolSize).value;
            Retain(like, test, columns, rows) == rows
  {
    hide DecodeRow, SelectRow, EvaluateBoolean, ContextOf;
    if stored != [] {
      ScanIsRetained(like, schema, columns, test, stored[1..], boolSize);
      var rows := ScanAll(like, schema, columns, Some(test), stored, boolSize).value;
      var rest := ScanAll(like, schema, columns, Some(test), stored[1..], boolSize).value;
      assert rows != rest ==> rows[1..] == rest;
    }
  }

  // The Filter node that the planner puts above the filtered Scan never changes a result.
  lemma {:induction false} FilterNodeIsRedundant(like: LikeFn, schema: Schema, columns: seq<Name>, test: Expr,
                                                 stored: seq<seq<byte>>, boolSize: nat)
    requires boolSize <= 1
    ensures var scan := Scan(columns, Some(test), schema);
            Execute(like, Filter(scan, test), stored, boolSize) == Execute(like, scan, stored, boolSize)
  {
    hide ScanAll, Retain;
    if ScanAll(like, schema, columns, Some(test), stored, boolSize).Ok? {
      ScanIsRetained(like, schema, columns, test, stored, boolSize);
    }
  }

  // ---------------------------------------------------------------------------
  // Selecting before filtering
  // ---------------------------------------------------------------------------

  // What a SELECT means: filter whole rows, then keep the selected columns.
  function FilterThenProject(like: LikeFn, names: seq<Name>, columns: seq<Name>, test: Expr, rows: seq<Row>)
    : Result<seq<Row>>
  {
    if rows == [] then Ok([])
    else
      var keep :- EvaluateBoolean(like, test, ContextOf(names, rows[0]));
      var selected :- SelectRow(names, columns, rows[0]);
      var rest :- FilterThenProject(like, names, columns, test, rows[1..]);
      Ok((if keep then [selected] else []) + rest)
  }

  // The stored rows decode to these rows, each with a value for every column.
  ghost predicate Decoded(schema: Schema, stored: seq<seq<byte>>, rows: seq<Row>, boolSize: nat)
    requires boolSize <= 1
  {
    |stored| == |rows| &&
    forall i {:trigger rows[i]} :: 0 <= i < |rows| ==>
      |rows[i]| == |schema.columns| && DecodeRow(boolSize, stored[i], 0, |schema.columns|) == Ok(rows[i])
  }

  ghost predicate AllIn(columns: seq<Name>, names: seq<Name>) {
    forall i :: 0 <= i < |columns| ==> columns[i] in names
  }

  lemma {:induction false} ProjectPicks(names: seq<Name>, columns: seq<Name>, row: Row)
    requires AllIn(columns, names) && |row| == |names|
    ensures var p := Project(names, columns, row);
            && p.Ok? && |p.value| == |columns|
            && forall i :: 0 <= i < |columns| ==> p.value[i] == row[Position(names, columns[i]).value]
  {
    hide Position;
    if columns != [] {
      assert forall i :: 0 <= i < |columns[1..]| ==> columns[1..][i] == columns[i + 1];
      ProjectPicks(names, columns[1..], row);
    }
  }

  // A column keeps its value when the row is reduced to a selection that has it.
  lemma {:induction false} SelectedContext(names: seq<Name>, columns: seq<Name>, row: Row, c: Name)
    requires Distinct(names) && AllIn(columns, names) && |row| == |names| && c in columns
    ensures var selected := SelectRow(names, columns, row);
            && selected.Ok? && c in ContextOf(columns, selected.value) && c in ContextOf(names, row)
            && ContextOf(columns, selected.value)[c] == ContextOf(names, row)[c]
  {
    hide ContextOf, Position, Project;
    ProjectPicks(names, columns, row);
    var selected := SelectRow(names, columns, row).value;
    ContextHas(columns, selected, c);
    ContextHas(names, row, c);
    var p := Position(names, c).value;
    assert names[p] == c;
    var i :| 0 <= i < |columns| && columns[i] == c && ContextOf(columns, selected)[c] == selected[i];
    var j :| 0 <= j < |names| && names[j] == c && ContextOf(names, row)[c] == row[j];
    PositionOf(names, j);
  }

  // The predicate sees the same values either way.
  lemma {:induction false} SameFilter(like: LikeFn, names: seq<Name>, columns: seq<Name>, test: Expr, row: Row)
    requires Distinct(names) && AllIn(columns, names) && |row| == |names|
    requires forall c :: c in FreeColumns(test) ==> c in columns
    ensures var selected := SelectRow(names, columns, row);
            && selected.Ok?
            && EvaluateBoolean(like, test, ContextOf(columns, selected.value))
               == EvaluateBoolean(like, test, ContextOf(names, row))
  {
    hide ContextOf, Project, Evaluate, FreeColumns;
    ProjectPicks(names, columns, row);
    var selected := SelectRow(names, columns, row).value;
    forall c | c in FreeColumns(test)
      ensures c in ContextOf(columns, selected) && c in ContextOf(names, row)
      ensures ContextOf(columns, selected)[c] == ContextOf(names, row)[c]
    {
      SelectedContext(names, columns, row, c);
    }
    DependsOnFreeColumns(like, test, ContextOf(columns, selected), ContextOf(names, row));
  }

  // If the predicate mentions selected columns only, scanning (select, then filter) is filtering,
  // then selecting: the same rows, or the same error.
  lemma {:induction false} ScanKeepsMeaning(like: LikeFn, schema: Schema, columns: seq<Name>, test: Expr,
                                            stored: seq<seq<byte>>, rows: seq<Row>, boolSize: nat)
    requires boolSize <= 1 && Distinct(Names(schema)) && AllIn(columns, Names(schema))
    requires Decoded(schema, stored, rows, boolSize)
    requires forall c :: c in FreeColumns(test) ==> c in columns
    ensures ScanAll(like, schema, columns, Some(test), stored, boolSize) ==
            FilterThenProject(like, Names(schema), columns, test, rows)
    decreases |rows|
  {
    hide DecodeRow, SelectRow, EvaluateBoolean, ContextOf, FreeColumns;
    if rows != [] {
      SameFilter(like, Names(schema), columns, test, rows[0]);
      assert forall i :: 0 <= i < |rows[1..]| ==> rows[1..][i] == rows[i + 1] && stored[1..][i] == stored[i + 1];
      ScanKeepsMeaning(like, schema, columns, test, stored[1..], rows[1..], boolSize);
    }
  }

  // And only then: over a table with at least one row, on whose rows the predicate is fine, the
  // scan means what the SELECT says if and only if every column of the predicate is selected.
  lemma {:induction false} ScanKeepsMeaningExactly(like: LikeFn, schema: Schema, columns: seq<Name>, test: Expr,
                                                   stored: seq<seq<byte>>, rows: seq<Row>, boolSize: nat)
    requires boolSize <= 1 && Distinct(Names(schema)) && AllIn(columns, Names(schema))
    requires Decoded(schema, stored, rows, boolSize) && rows != []
    requires FilterThenProject(like, Names(schema), columns, test, rows).Ok?
    ensures ScanAll(like, schema, columns, Some(test), stored, boolSize) ==
            FilterThenProject(like, Names(schema), columns, test, rows)
            <==> forall c :: c in FreeColumns(test) ==> c in columns
  {
    hide DecodeRow, Evaluate, FreeColumns, FilterThenProject, ContextOf, Project;
    if forall c :: c in FreeColumns(test) ==> c in columns {
      ScanKeepsMeaning(like, schema, columns, test, stored, rows, boolSize);
    } else {
      var c :| c in FreeColumns(test) && c !in columns;
      ProjectPicks(Names(schema), columns, rows[0]);
      var selected := SelectRow(Names(schema), columns, rows[0]).value;
      ContextHas(columns, selected, c);
      MissingColumnFails(like, test, ContextOf(columns, selected), c);
    }
  }

  lemma {:induction false} ResolvedAreColumns(items: seq<SelectItem>, schema: Schema)
    requires ResolveItems(items, schema).Ok?
    requires forall i :: 0 <= i < |items| && items[i].Item? ==> items[i].alias == None
    ensures AllIn(ResolveItems(items, schema).value, Names(schema))
  {
    if items != [] {
      assert forall i :: 0 <= i < |items[1..]| ==> items[1..][i] == items[i + 1];
      ResolvedAreColumns(items[1..], schema);
    }
  }

  // End to end: an unaliased SELECT whose WHERE mentions selected columns only, planned and
  // executed over rows that decode, returns the selection of the rows that pass.
  lemma {:induction false} SelectMeansWhatItSays(like: LikeFn, items: seq<SelectItem>, test: Expr, schema: Schema,
                                                 stored: seq<seq<byte>>, rows: seq<Row>, boolSize: nat)
    requires boolSize <= 1 && Distinct(Names(schema)) && Decoded(schema, stored, rows, boolSize)
    requires PlanSelect(items, Some(test), schema).Ok?
    requires forall i :: 0 <= i < |items| && items[i].Item? ==> items[i].alias == None
    requires forall c :: c in FreeColumns(test) ==> c in ResolveItems(items, schema).value
    ensures var columns := ResolveItems(items, schema).value;
            var meant := FilterThenProject(like, Names(schema), columns, test, rows);
            Execute(like, PlanSelect(items, Some(test), schema).value, stored, boolSize) ==
            if meant.Ok? then Ok((columns, meant.value)) else Err(meant.error)
  {
    hide FilterThenProject, ScanAll, Retain, FreeColumns;
    var columns := ResolveItems(items, schema).value;
    ResolvedAreColumns(items, schema);
    FilterNodeIsRedundant(like, schema, columns, test, stored, boolSize);
    ScanKeepsMeaning(like, schema, columns, test, stored, rows, boolSize);
  }

  // A row passes a WHERE clause, or there is none.
  predicate Qualifies(like: LikeFn, filter: Option<Expr>, names: seq<Name>, row: Row) {
    filter.None? || EvaluateBoolean(like, filter.value, ContextOf(names, row)) == Ok(true)
  }

  // These are the values of these columns in this row.
  ghost predicate Reduces(names: seq<Name>, columns: seq<Name>, row: Row, selected: Row) {
    |row| == |names| && |selected| == |columns| &&
    forall i, p :: 0 <= i < |columns| && 0 <= p < |names| && names[p] == columns[i] ==> selected[i] == row[p]
  }

  // The columns a selection keeps: an empty one keeps them all.
  function KeptColumns(names: seq<Name>, columns: seq<Name>): seq<Name> {
    if columns == [] then names else columns
  }

  lemma {:induction false} SelectReduces(names: seq<Name>, columns: seq<Name>, row: Row)
    requires Distinct(names) && AllIn(columns, names) && |row| == |names|
    ensures SelectRow(names, columns, row).Ok?
    ensures Reduces(names, KeptColumns(names, columns), row, SelectRow(names, columns, row).value)
  {
    hide Position, Project;
    ProjectPicks(names, columns, row);
    forall i, p | 0 <= i < |columns| && 0 <= p < |names| && names[p] == columns[i]
      ensures SelectRow(names, columns, row).value[i] == row[p]
    {
      PositionOf(names, p);
    }
  }

  ghost predicate Ascending(at: seq<nat>) {
    forall i, j :: 0 <= i < j < |at| ==> at[i] < at[j]
  }

  // `at` names the rows that qualify, all of them and in their order, and the results are these rows,
  // each reduced to the columns.
  ghost predicate Answers(like: LikeFn, filter: Option<Expr>, names: seq<Name>, columns: seq<Name>, rows: seq<Row>,
                          results: seq<Row>, at: seq<nat>)
  {
    && Ascending(at)
    && (forall i {:trigger i in at} :: 0 <= i < |rows| && Qualifies(like, filter, names, rows[i]) ==> i in at)
    && |results| == |at|
    && forall k {:trigger at[k]} :: 0 <= k < |at| ==>
         at[k] < |rows| && Qualifies(like, filter, names, rows[at[k]]) && Reduces(names, columns, rows[at[k]], results[k])
  }

  function OneFurther(at: seq<nat>): (r: seq<nat>)
    ensures |r| == |at| && forall k :: 0 <= k < |at| ==> r[k] == at[k] + 1
  {
    seq(|at|, k requires 0 <= k < |at| => at[k] + 1)
  }

  lemma {:induction false} FurtherAscends(at: seq<nat>)
    requires Ascending(at)
    ensures Ascending([] + OneFurther(at)) && Ascending([0] + OneFurther(at))
  {
  }

  lemma {:induction false} NamedFurther(like: LikeFn, filter: Option<Expr>, names: seq<Name>, rows: seq<Row>, at: seq<nat>, i: nat)
    requires 0 < i < |rows| && Qualifies(like, filter, names, rows[i])
    requires forall i {:trigger i in at} :: 0 <= i < |rows[1..]| && Qualifies(like, filter, names, rows[1..][i]) ==> i in at
    ensures i in OneFurther(at)
  {
    hide Qualifies;
    assert rows[i] == rows[1..][i - 1];
    assert i - 1 in at;
    var k :| 0 <= k < |at| && at[k] == i - 1;
    assert OneFurther(at)[k] == i;
  }

  lemma {:induction false} AnswersMore(like: LikeFn, filter: Option<Expr>, names: seq<Name>, columns: seq<Name>, rows: seq<Row>,
                                       selected: Row, results: seq<Row>, at: seq<nat>) returns (all: seq<nat>)
    requires rows != [] && Answers(like, filter, names, columns, rows[1..], results, at)
    requires Reduces(names, columns, rows[0], selected)
    ensures Answers(like, filter, names, columns, rows,
                    (if Qualifies(like, filter, names, rows[0]) then [selected] else []) + results, all)
  {
    hide Qualifies, Reduces, Ascending;
    var first: seq<nat> := if Qualifies(like, filter, names, rows[0]) then [0] else [];
    var further := OneFurther(at);
    all := first + further;
    assert Ascending(all) by { FurtherAscends(at); }
    forall i {:trigger i in all} | 0 <= i < |rows| && Qualifies(like, filter, names, rows[i])
      ensures i in all
    {
      if i > 0 {
        NamedFurther(like, filter, names, rows, at, i);
      }
    }
    var both := (if Qualifies(like, filter, names, rows[0]) then [selected] else []) + results;
    forall k {:trigger all[k]} | 0 <= k < |all|
      ensures all[k] < |rows| && Qualifies(like, filter, names, rows[all[k]]) && Reduces(names, columns, rows[all[k]], both[k])
    {
      if k >= |first| {
        var l := k - |first|;
        assert all[k] == further[l] && both[k] == results[l] && rows[at[l] + 1] == rows[1..][at[l]];
      }
    }
  }

  // What a successful scan returns.
  lemma {:induction false} ScanReturns(like: LikeFn, schema: Schema, columns: seq<Name>, filter: Option<Expr>,
                                       stored: seq<seq<byte>>, rows: seq<Row>, boolSize: nat) returns (at: seq<nat>)
    requires boolSize <= 1 && Distinct(Names(schema)) && AllIn(columns, Names(schema))
    requires Decoded(schema, stored, rows, boolSize)
    requires filter.Some? ==> forall c :: c in FreeColumns(filter.value) ==> c in columns
    requires ScanAll(like, schema, columns, filter, stored, boolSize).Ok?
    ensures Answers(like, filter, Names(schema), KeptColumns(Names(schema), columns), rows,
                    ScanAll(like, schema, columns, filter, stored, boolSize).value, at)
    decreases |rows|
  {
    hide DecodeRow, SelectRow, EvaluateBoolean, ContextOf, FreeColumns, Reduces, Distinct, AllIn, Answers;
    if rows == [] {
      at := [];
      NothingAnswers(like, filter, Names(schema), KeptColumns(Names(schema), columns));
    } else {
      SelectReduces(Names(schema), columns, rows[0]);
      if filter.Some? {
        SameFilter(like, Names(schema), columns, filter.value, rows[0]);
      }
      assert forall i :: 0 <= i < |rows[1..]| ==> rows[1..][i] == rows[i + 1] && stored[1..][i] == stored[i + 1];
      var rest := ScanReturns(like, schema, columns, filter, stored[1..], rows[1..], boolSize);
      var results := ScanAll(like, schema, columns, filter, stored[1..], boolSize).value;
      at := AnswersMore(like, filter, Names(schema), KeptColumns(Names(schema), columns), rows,
                        SelectRow(Names(schema), columns, rows[0]).value, results, rest);
    }
  }

  lemma {:induction false} NothingAnswers(like: LikeFn, filter: Option<Expr>, names: seq<Name>, columns: seq<Name>)
    ensures Answers(like, filter, names, columns, [], [], [])
  {
  }

  // A scan fails exactly when the predicate fails on one of the rows, qualifying or not.
  lemma {:induction false} ScanSucceedsExactly(like: LikeFn, schema: Schema, columns: seq<Name>, filter: Option<Expr>,
                                               stored: seq<seq<byte>>, rows: seq<Row>, boolSize: nat)
    requires boolSize <= 1 && Distinct(Names(schema)) && AllIn(columns, Names(schema))
    requires Decoded(schema, stored, rows, boolSize)
    requires filter.Some? ==> forall c :: c in FreeColumns(filter.value) ==> c in columns
    ensures ScanAll(like, schema, columns, filter, stored, boolSize).Ok? <==>
            filter.None? || forall i :: 0 <= i < |rows| ==> EvaluateBoolean(like, filter.value, ContextOf(Names(schema), rows[i])).Ok?
    decreases |rows|
  {
    hide DecodeRow, SelectRow, EvaluateBoolean, ContextOf, FreeColumns, Reduces, Distinct, AllIn;
    if rows != [] {
      SelectReduces(Names(schema), columns, rows[0]);
      if filter.Some? {
        SameFilter(like, Names(schema), columns, filter.value, rows[0]);
      }
      assert forall i :: 0 <= i < |rows[1..]| ==> rows[1..][i] == rows[i + 1] && stored[1..][i] == stored[i + 1];
      ScanSucceedsExactly(like, schema, columns, filter, stored[1..], rows[1..], boolSize);
      assert forall i :: 0 < i < |rows| ==> rows[i] == rows[1..][i - 1];
    }
  }

  // A stored row that does not decode is always an error, wherever it is.
  lemma {:induction false} UndecodableFails(like: LikeFn, schema: Schema, columns: seq<Name>, filter: Option<Expr>,
                                            stored: seq<seq<byte>>, boolSize: nat, i: nat)
    requires boolSize <= 1 && i < |stored| && DecodeRow(boolSize, stored[i], 0, |schema.columns|).Err?
    ensures ScanAll(like, schema, columns, filter, stored, boolSize).Err?
    decreases i
  {
    hide DecodeRow, SelectRow, Passes;
    if i > 0 {
      UndecodableFails(like, schema, columns, filter, stored[1..], boolSize, i - 1);
    }
  }

  // End to end: an unaliased SELECT, with or without a WHERE clause over selected columns, has the
  // headings of its items and returns the qualifying rows, each reduced to these columns, or whole if
  // there are none.
  lemma {:induction false} SelectReturns(like: LikeFn, items: seq<SelectItem>, filter: Option<Expr>, schema: Schema,
                                         stored: seq<seq<byte>>, rows: seq<Row>, boolSize: nat) returns (at: seq<nat>)
    requires boolSize <= 1 && Distinct(Names(schema)) && Decoded(schema, stored, rows, boolSize)
    requires PlanSelect(items, filter, schema).Ok?
    requires forall i :: 0 <= i < |items| && items[i].Item? ==> items[i].alias == None
    requires filter.Some? ==> forall c :: c in FreeColumns(filter.value) ==> c in ResolveItems(items, schema).value
    requires Execute(like, PlanSelect(items, filter, schema).value, stored, boolSize).Ok?
    ensures var (headings, results) := Execute(like, PlanSelect(items, filter, schema).value, stored, boolSize).value;
            headings == ResolveItems(items, schema).value &&
            Answers(like, filter, Names(schema), KeptColumns(Names(schema), headings), rows, results, at)
  {
    hide ScanAll, Retain, FreeColumns, Answers;
    var columns := ResolveItems(items, schema).value;
    ResolvedAreColumns(items, schema);
    if filter.Some? {
      FilterNodeIsRedundant(like, schema, columns, filter.value, stored, boolSize);
    }
    at := ScanReturns(like, schema, columns, filter, stored, rows, boolSize);
  }

  // An alias is looked up in the schema like a column name.  A selection keeps its width exactly
  // when all its names, aliases included, are columns; any other is dropped from the row while its
  // heading stays.
  lemma {:induction false} WidthKeptExactly(names: seq<Name>, columns: seq<Name>, row: Row)
    requires |row| == |names|
    ensures var p := Project(names, columns, row);
            p.Ok? && |p.value| <= |columns| && (|p.value| == |columns| <==> AllIn(columns, names))
  {
    hide Position;
    if columns != [] {
      WidthKeptExactly(names, columns[1..], row);
      assert forall i :: 0 < i < |columns| ==> columns[i] == columns[1..][i - 1];
      assert forall i :: 0 <= i < |columns[1..]| ==> columns[1..][i] == columns[i + 1];
      if Position(names, columns[0]).Some? {
        assert columns[0] in names;
      }
    }
  }
}
