/**
 * The sidebar's initial selections: every distinct non-null Department and
 * Gender, and the full Age range from the smallest to the largest age.
 */
module Defaults {
  import opened Wrappers
  import opened Seqs
  import opened Employees
  import opened Filter

  /**
   * The options of a multiselect (`dropna().unique()`), also its default:
   * each value present in the column exactly once; none when the column is absent.
   */
  function Options(t: Table, c: Column): (r: seq<string>)
    ensures Distinct(r)
    ensures forall v :: v in r <==> t.schema.Has(c) && exists x :: x in t.rows && x.Get(c) == Some(v)
  {
    if t.schema.Has(c) then Unique(NonNull(t.rows, c)) else []
  }

  /** `df['Age'].min()`, which skips nulls; None when no age is known. */
  function MinAge(rows: seq<Record>): (r: Option<int>)
    ensures r.None? <==> forall x :: x in rows ==> x.age.None?
    ensures r.Some? ==> exists x :: x in rows && x.age == r
    ensures r.Some? ==> forall x :: x in rows && x.age.Some? ==> r.value <= x.age.value
  {
    if rows == [] then None
    else
      var rest := MinAge(rows[1..]);
      assert forall x :: x in rows <==> x == rows[0] || x in rows[1..];
      match rows[0].age
      case None => rest
      case Some(a) => if rest.Some? && rest.value < a then rest else Some(a)
  }

  /** `df['Age'].max()`, which skips nulls; None when no age is known. */
  function MaxAge(rows: seq<Record>): (r: Option<int>)
    ensures r.None? <==> forall x :: x in rows ==> x.age.None?
    ensures r.Some? ==> exists x :: x in rows && x.age == r
    ensures r.Some? ==> forall x :: x in rows && x.age.Some? ==> x.age.value <= r.value
  {
    if rows == [] then None
    else
      var rest := MaxAge(rows[1..]);
      assert forall x :: x in rows <==> x == rows[0] || x in rows[1..];
      match rows[0].age
      case None => rest
      case Some(a) => if rest.Some? && a < rest.value then rest else Some(a)
  }

  /**
   * The selections the dashboard starts from. Reading `df['Age']` fails
   * without an Age column, and `int()` of the minimum fails when every Age
   * is null (in particular when the table is empty).
   */
  function DefaultSpec(t: Table): (r: Result<FilterSpec, Error>)
    ensures r.Failure? <==> !t.schema.hasAge || forall x :: x in t.rows ==> x.age.None?
    ensures r.Failure? ==> (r.error == MissingAgeColumn <==> !t.schema.hasAge)
    ensures r.Success? ==> r.value.departments == Options(t, Department) && r.value.genders == Options(t, Gender)
    ensures r.Success? ==> exists x :: x in t.rows && x.age == Some(r.value.ageLow)
    ensures r.Success? ==> exists x :: x in t.rows && x.age == Some(r.value.ageHigh)
    ensures r.Success? ==> r.value.ageLow <= r.value.ageHigh
    ensures r.Success? ==> forall x :: x in t.rows && x.age.Some? ==> AgeWithin(x.age, r.value.ageLow, r.value.ageHigh)
  {
    if !t.schema.hasAge then Failure(MissingAgeColumn)
    else
      match (MinAge(t.rows), MaxAge(t.rows))
      case (Some(low), Some(high)) =>
        Success(FilterSpec(Options(t, Department), Options(t, Gender), low, high))
      case _ => Failure(NoAgeValues)
  }

  /** The row has a value in every column the filter reads. */
  predicate Complete(schema: Schema, r: Record) {
    && (schema.hasDepartment ==> r.department.Some?)
    && (schema.hasGender ==> r.gender.Some?)
    && r.age.Some?
  }

  function CompleteFn(schema: Schema): Record -> bool {
    (r: Record) => Complete(schema, r)
  }

  /** Under the default selections the filter removes exactly the rows with a null in a filtered column. */
  lemma DefaultFilterDropsOnlyNulls(t: Table)
    requires t.schema.hasAge && exists x :: x in t.rows && x.age.Some?
    ensures ApplyFilter(t, DefaultSpec(t).value) == Success(Table(t.schema, Select(t.rows, CompleteFn(t.schema))))
  {
    var f := DefaultSpec(t).value;
    forall x | x in t.rows
      ensures Admits(t.schema, f, x) == Complete(t.schema, x)
    {
      if t.schema.hasDepartment && x.department.Some? {
        assert x.department.value in Options(t, Department);
      }
      if t.schema.hasGender && x.gender.Some? {
        assert x.gender.value in Options(t, Gender);
      }
    }
    ApplyFilterIsOneSelection(t, f);
    SelectCongruent(t.rows, AdmitsFn(t.schema, f), CompleteFn(t.schema));
  }

  /** With no nulls in the filtered columns, the default filter is a no-op. */
  lemma DefaultFilterKeepsCompleteTable(t: Table)
    requires t.schema.hasAge && exists x :: x in t.rows && x.age.Some?
    requires forall x :: x in t.rows ==> Complete(t.schema, x)
    ensures ApplyFilter(t, DefaultSpec(t).value) == Success(t)
  {
    DefaultFilterDropsOnlyNulls(t);
    SelectAll(t.rows, CompleteFn(t.schema));
  }
}
