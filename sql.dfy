/**
 * The statements the relational repositories issue, as values: an `UPDATE` is a table,
 * an ordered list of (column, value) assignments and the id of its `WHERE id = ...`
 * clause. A table's rows are maps from column to value. Query execution itself is not
 * modelled; `ExecAssignments` and `ExecDelete` say what a statement does to rows.
 */
module Sql {
  import opened Wrappers
  import opened Uuids

  datatype Value = Null | Text(text: string) | Float(float: real) | Integer(integer: int) | Boolean(boolean: bool) | IdValue(uuid: Uuid)

  datatype Assignment = Assignment(column: string, value: Value)

  /** `UPDATE <table> SET <column = value, ...> WHERE id = <target>`. */
  datatype UpdateStatement = UpdateStatement(table: string, assignments: seq<Assignment>, target: Uuid)

  /** `DELETE FROM <table> WHERE id = <target>`. */
  datatype DeleteStatement = DeleteStatement(table: string, target: Uuid)

  /** A column of the entity and the value the caller gave for it, or `nil`. */
  datatype Field = Field(column: string, value: Option<Value>)

  /** `c` is the column of none of the fields. */
  predicate NotAColumn(fields: seq<Field>, c: string)
  {
    forall i | 0 <= i < |fields| :: fields[i].column != c
  }

  /** The columns of a list of assignments, in order. */
  function Columns(assignments: seq<Assignment>): (r: seq<string>)
    ensures |r| == |assignments| && forall i | 0 <= i < |assignments| :: r[i] == assignments[i].column
  {
    seq(|assignments|, i requires 0 <= i < |assignments| => assignments[i].column)
  }

  predicate DistinctColumns(fields: seq<Field>)
  {
    forall i, j | 0 <= i < j < |fields| :: fields[i].column != fields[j].column
  }

  /**
   * The general partial-update builder: one assignment per field that was given a
   * value, in the order of the fields.
   */
  function {:induction false} Present(fields: seq<Field>): (r: seq<Assignment>)
    ensures |r| <= |fields|
    ensures r == [] <==> forall i | 0 <= i < |fields| :: fields[i].value.None?
  {
    if fields == [] then []
    else
      var rest := Present(fields[1..]);
      assert forall i | 1 <= i < |fields| :: fields[i] == fields[1..][i - 1];
      match fields[0].value
      case Some(v) => [Assignment(fields[0].column, v)] + rest
      case None => rest
  }

  /** The assignment of one field: none when the field was given no value. */
  function AssignmentOf(f: Field): seq<Assignment>
  {
    if f.value.Some? then [Assignment(f.column, f.value.value)] else []
  }

  /** The builder works field by field. */
  lemma PresentCons(fields: seq<Field>)
    requires fields != []
    ensures Present(fields) == AssignmentOf(fields[0]) + Present(fields[1..])
  {
  }

  /** The builder on a list of three fields. */
  lemma PresentOfThree(a: Field, b: Field, c: Field)
    ensures Present([a, b, c]) == AssignmentOf(a) + AssignmentOf(b) + AssignmentOf(c)
  {
    PresentCons([a, b, c]);
    assert [a, b, c][1..] == [b, c];
    PresentCons([b, c]);
    assert [b, c][1..] == [c];
    PresentCons([c]);
    assert [c][1..] == [];
  }

  /** The builder over a concatenation of field lists is the concatenation of the builders. */
  lemma {:induction false} PresentAppend(xs: seq<Field>, ys: seq<Field>)
    ensures Present(xs + ys) == Present(xs) + Present(ys)
    decreases |xs|
  {
    if xs == [] {
      assert xs + ys == ys;
    } else {
      var a := AssignmentOf(xs[0]);
      var zs := xs + ys;
      assert zs[1..] == xs[1..] + ys;
      calc {
        Present(zs);
      == { PresentCons(zs); assert zs[0] == xs[0]; }
        a + Present(xs[1..] + ys);
      == { PresentAppend(xs[1..], ys); }
        a + (Present(xs[1..]) + Present(ys));
      ==
        (a + Present(xs[1..])) + Present(ys);
      == { PresentCons(xs); }
        Present(xs) + Present(ys);
      }
    }
  }

  /** Building one more field of a list appends that field's assignment, if any. */
  lemma PresentSnoc(fields: seq<Field>, k: nat, before: seq<Assignment>)
    requires k < |fields| && before == Present(fields[..k])
    ensures Present(fields[..k + 1]) == before + AssignmentOf(fields[k])
  {
    assert fields[..k + 1] == fields[..k] + [fields[k]];
    PresentAppend(fields[..k], [fields[k]]);
    PresentCons([fields[k]]);
    assert [fields[k]][1..] == [];
  }

  /** Building the last field of a list completes the builder over the whole list. */
  lemma PresentLast(fields: seq<Field>, before: seq<Assignment>)
    requires fields != [] && before == Present(fields[..|fields| - 1])
    ensures Present(fields) == before + AssignmentOf(fields[|fields| - 1])
  {
    PresentSnoc(fields, |fields| - 1, before);
    assert fields[..|fields|] == fields;
  }

  /** The builder on a list of five fields. */
  lemma PresentOfFive(fields: seq<Field>)
    requires |fields| == 5
    ensures Present(fields) == AssignmentOf(fields[0]) + AssignmentOf(fields[1]) + AssignmentOf(fields[2])
                               + AssignmentOf(fields[3]) + AssignmentOf(fields[4])
  {
    assert fields[..0] == [];
    PresentSnoc(fields, 0, []);
    assert [] + AssignmentOf(fields[0]) == AssignmentOf(fields[0]);
    PresentSnoc(fields, 1, Present(fields[..1]));
    PresentSnoc(fields, 2, Present(fields[..2]));
    PresentSnoc(fields, 3, Present(fields[..3]));
    PresentLast(fields, Present(fields[..4]));
  }

  /** Every built assignment comes from a field that was given that value. */
  lemma {:induction false} PresentSound(fields: seq<Field>, a: Assignment)
    requires a in Present(fields)
    ensures exists i | 0 <= i < |fields| :: fields[i] == Field(a.column, Some(a.value))
  {
    var rest := fields[1..];
    if fields[0].value.Some? && a == Assignment(fields[0].column, fields[0].value.value) {
      assert fields[0] == Field(a.column, Some(a.value));
    } else {
      PresentSound(rest, a);
      var k :| 0 <= k < |rest| && rest[k] == Field(a.column, Some(a.value));
      assert fields[k + 1] == rest[k];
    }
  }

  /** Every field that was given a value has its assignment. */
  lemma {:induction false} PresentComplete(fields: seq<Field>, i: nat)
    requires i < |fields| && fields[i].value.Some?
    ensures Assignment(fields[i].column, fields[i].value.value) in Present(fields)
  {
    if i > 0 {
      assert fields[i] == fields[1..][i - 1];
      PresentComplete(fields[1..], i - 1);
    }
  }

  /** `UPDATE` for the given fields, or no statement at all when none was given. */
  function BuildUpdate(table: string, id: Uuid, fields: seq<Field>): (r: Option<UpdateStatement>)
    ensures r.None? <==> forall i | 0 <= i < |fields| :: fields[i].value.None?
    ensures r.Some? ==> r.value.table == table && r.value.target == id && r.value.assignments == Present(fields)
  {
    var assignments := Present(fields);
    if assignments == [] then None else Some(UpdateStatement(table, assignments, id))
  }

  type Row = map<string, Value>

  /**
   * The row after `SET column = value, ...`, assignments taken left to right: the row
   * gains the assigned columns and no other, unassigned columns keep their values, and
   * the last assignment wins.
   */
  function {:induction false} ExecAssignments(row: Row, assignments: seq<Assignment>): (r: Row)
    ensures forall c | c in row :: c in r
    ensures forall i | 0 <= i < |assignments| :: assignments[i].column in r
    ensures forall c | c in r && c !in row :: exists i | 0 <= i < |assignments| :: assignments[i].column == c
    ensures forall c | c in row && (forall i | 0 <= i < |assignments| :: assignments[i].column != c) :: r[c] == row[c]
    ensures assignments != [] ==> r[assignments[|assignments| - 1].column] == assignments[|assignments| - 1].value
    decreases |assignments|
  {
    if assignments == [] then row
    else ExecAssignments(row[assignments[0].column := assignments[0].value], assignments[1..])
  }

  /** One step of the builder and of running it: the first field, then the rest. */
  lemma ExecPresentStep(row: Row, fields: seq<Field>)
    requires fields != []
    ensures ExecAssignments(row, Present(fields))
         == ExecAssignments(if fields[0].value.Some? then row[fields[0].column := fields[0].value.value] else row, Present(fields[1..]))
  {
    var f := fields[0];
    if f.value.Some? {
      var a := Present(fields);
      assert a == [Assignment(f.column, f.value.value)] + Present(fields[1..]);
      assert a[1..] == Present(fields[1..]);
    }
  }

  /** Running assignments to columns the row has adds no column and removes none. */
  lemma {:induction false} ExecPresentKeys(row: Row, fields: seq<Field>)
    requires forall i | 0 <= i < |fields| :: fields[i].column in row
    ensures ExecAssignments(row, Present(fields)).Keys == row.Keys
    decreases |fields|
  {
    if fields != [] {
      var f := fields[0];
      var row1 := if f.value.Some? then row[f.column := f.value.value] else row;
      assert forall i | 1 <= i < |fields| :: fields[i] == fields[1..][i - 1];
      ExecPresentStep(row, fields);
      ExecPresentKeys(row1, fields[1..]);
    }
  }

  /** Columns that are not among the fields keep their values. */
  lemma {:induction false} ExecPresentOthers(row: Row, fields: seq<Field>, c: string)
    requires c in row && NotAColumn(fields, c)
    decreases |fields|
    ensures c in ExecAssignments(row, Present(fields)) && ExecAssignments(row, Present(fields))[c] == row[c]
  {
    if fields != [] {
      var f := fields[0];
      var row1 := if f.value.Some? then row[f.column := f.value.value] else row;
      assert forall k | 0 <= k < |fields| - 1 :: fields[1..][k] == fields[k + 1];
      ExecPresentStep(row, fields);
      ExecPresentOthers(row1, fields[1..], c);
    }
  }

  /**
   * Running the built assignments on a row that has every column: field `i` holds its
   * given value, or keeps the row's value when it was given none.
   */
  lemma {:induction false} ExecPresentField(row: Row, fields: seq<Field>, i: nat)
    requires DistinctColumns(fields) && i < |fields|
    requires forall k | 0 <= k < |fields| :: fields[k].column in row
    ensures var r := ExecAssignments(row, Present(fields));
      fields[i].column in r && r[fields[i].column] == if fields[i].value.Some? then fields[i].value.value else row[fields[i].column]
    decreases |fields|
  {
    if i == 0 {
      ExecPresentFirst(row, fields);
    } else {
      var f := fields[0];
      var row1 := if f.value.Some? then row[f.column := f.value.value] else row;
      FieldsTail(row, fields, row1, i);
      ExecPresentStep(row, fields);
      ExecPresentField(row1, fields[1..], i - 1);
    }
  }

  /** What the rest of the fields keep from the whole list, for `ExecPresentField`'s step. */
  lemma FieldsTail(row: Row, fields: seq<Field>, row1: Row, i: nat)
    requires DistinctColumns(fields) && 0 < i < |fields|
    requires forall k | 0 <= k < |fields| :: fields[k].column in row
    requires row1.Keys >= row.Keys
    ensures DistinctColumns(fields[1..])
    ensures forall k | 0 <= k < |fields| - 1 :: fields[1..][k].column in row1
    ensures fields[1..][i - 1] == fields[i] && fields[i].column != fields[0].column
  {
    assert forall k | 1 <= k < |fields| :: fields[k] == fields[1..][k - 1];
  }

  /** `ExecPresentField` for the first field: later fields never assign its column. */
  lemma ExecPresentFirst(row: Row, fields: seq<Field>)
    requires DistinctColumns(fields) && fields != []
    requires fields[0].column in row
    ensures var r := ExecAssignments(row, Present(fields));
      fields[0].column in r && r[fields[0].column] == if fields[0].value.Some? then fields[0].value.value else row[fields[0].column]
  {
    var f, rest := fields[0], fields[1..];
    var row1 := if f.value.Some? then row[f.column := f.value.value] else row;
    assert NotAColumn(rest, f.column) by {
      forall k | 0 <= k < |rest| ensures rest[k].column != f.column {
        assert rest[k] == fields[k + 1];
      }
    }
    ExecPresentStep(row, fields);
    ExecPresentOthers(row1, rest, f.column);
  }

  /**
   * Running the built assignments on a row that has every column gives the row in which
   * each given field holds its value and every other column keeps its own.
   */
  lemma ExecPresentRow(row: Row, fields: seq<Field>, expected: Row)
    requires DistinctColumns(fields)
    requires forall k | 0 <= k < |fields| :: fields[k].column in row
    requires expected.Keys == row.Keys
    requires forall k | 0 <= k < |fields| ::
      expected[fields[k].column] == if fields[k].value.Some? then fields[k].value.value else row[fields[k].column]
    requires forall c | c in row && NotAColumn(fields, c) :: expected[c] == row[c]
    ensures ExecAssignments(row, Present(fields)) == expected
  {
    var r := ExecAssignments(row, Present(fields));
    ExecPresentKeys(row, fields);
    ExecPresentValues(row, fields, expected, r);
    assert r.Keys == expected.Keys;
  }

  /** `ExecPresentRow` column by column. */
  lemma ExecPresentValues(row: Row, fields: seq<Field>, expected: Row, r: Row)
    requires DistinctColumns(fields)
    requires forall k | 0 <= k < |fields| :: fields[k].column in row
    requires expected.Keys == row.Keys
    requires forall k | 0 <= k < |fields| ::
      expected[fields[k].column] == if fields[k].value.Some? then fields[k].value.value else row[fields[k].column]
    requires forall c | c in row && NotAColumn(fields, c) :: expected[c] == row[c]
    requires r == ExecAssignments(row, Present(fields)) && r.Keys == row.Keys
    ensures forall c | c in r :: r[c] == expected[c]
  {
    forall c | c in r
      ensures r[c] == expected[c]
    {
      ExecPresentColumn(row, fields, expected, c);
    }
  }

  /** One column of `ExecPresentRow`. */
  lemma ExecPresentColumn(row: Row, fields: seq<Field>, expected: Row, c: string)
    requires DistinctColumns(fields)
    requires forall k | 0 <= k < |fields| :: fields[k].column in row
    requires expected.Keys == row.Keys
    requires forall k | 0 <= k < |fields| ::
      expected[fields[k].column] == if fields[k].value.Some? then fields[k].value.value else row[fields[k].column]
    requires c in row && (NotAColumn(fields, c) ==> expected[c] == row[c])
    ensures var r := ExecAssignments(row, Present(fields)); c in r && r[c] == expected[c]
  {
    if NotAColumn(fields, c) {
      ExecPresentOthers(row, fields, c);
    } else {
      var k :| 0 <= k < |fields| && fields[k].column == c;
      ExecPresentField(row, fields, k);
    }
  }

  /** Each table's row ids. */
  type Tables = map<string, set<Uuid>>

  function RowIds(db: Tables, table: string): set<Uuid>
  {
    if table in db then db[table] else {}
  }

  /** `SELECT "id" FROM <table> WHERE "id" = id`: the matching ids. */
  function SelectId(db: Tables, table: string, id: Uuid): (r: seq<Uuid>)
    ensures r == [] <==> id !in RowIds(db, table)
  {
    if id in RowIds(db, table) then [id] else []
  }

  /** What `DELETE FROM <table> WHERE id = <target>` leaves: only that id leaves that table. */
  function ExecDelete(db: Tables, d: DeleteStatement): (r: Tables)
    ensures RowIds(r, d.table) == RowIds(db, d.table) - {d.target}
    ensures forall t | t != d.table :: RowIds(r, t) == RowIds(db, t)
  {
    db[d.table := RowIds(db, d.table) - {d.target}]
  }

  /** The outcome of a `delete`: the tables afterwards, the statement issued if any, and the result. */
  datatype DeleteOutcome = DeleteOutcome(tables: Tables, issued: Option<DeleteStatement>, deleted: bool)

  /**
   * `delete` of the relational repositories: a `SELECT` for the id first; no row, no
   * `DELETE` and `false`; a row, the `DELETE` and `true`. Only that row of that table goes.
   */
  function DeleteChecked(db: Tables, table: string, id: Uuid): (r: DeleteOutcome)
    ensures r.deleted <==> id in RowIds(db, table)
    ensures r.issued.Some? <==> r.deleted
    ensures r.issued.Some? ==> r.issued.value == DeleteStatement(table, id)
    ensures RowIds(r.tables, table) == RowIds(db, table) - {id}
    ensures forall t | t != table :: RowIds(r.tables, t) == RowIds(db, t)
  {
    if SelectId(db, table, id) == [] then DeleteOutcome(db, None, false)
    else
      var d := DeleteStatement(table, id);
      DeleteOutcome(ExecDelete(db, d), Some(d), true)
  }
}
