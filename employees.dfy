/**
 * The employee table the dashboard loads: one record per employee, with the
 * columns the filter and the attrition summaries read. A missing cell is
 * `None`; a column that the loaded file lacks is recorded in the schema.
 */
module Employees {
  import opened Wrappers

  /** The categorical columns the sidebar filters on and the rate tables group by. */
  datatype Column = Department | Gender

  datatype Record = Record(
    department: Option<string>,
    gender: Option<string>,
    age: Option<int>,
    attrition: string)
  {
    function Get(c: Column): Option<string> {
      match c
      case Department => department
      case Gender => gender
    }
  }

  /** Which of the optional columns the loaded file has. */
  datatype Schema = Schema(hasDepartment: bool, hasGender: bool, hasAge: bool) {
    predicate Has(c: Column) {
      match c
      case Department => hasDepartment
      case Gender => hasGender
    }
  }

  /** A loaded table: its columns and its rows in file order. */
  datatype Table = Table(schema: Schema, rows: seq<Record>)

  /** `df[c].dropna()`: the non-null cells of column `c`, in row order. */
  function NonNull(rows: seq<Record>, c: Column): (r: seq<string>)
    ensures forall v :: v in r <==> exists x :: x in rows && x.Get(c) == Some(v)
  {
    if rows == [] then []
    else
      var rest := NonNull(rows[1..], c);
      assert forall x :: x in rows <==> x == rows[0] || x in rows[1..];
      match rows[0].Get(c)
      case None => rest
      case Some(v) => [v] + rest
  }

  datatype Error =
    | MissingAgeColumn   // `df['Age']` raises KeyError
    | NoAgeValues        // `int(df['Age'].min())` of an all-null column raises ValueError
}
