/**
 * The sidebar filter: keep a row when its Department and Gender are among the
 * selected values (each checked only when the table has that column) and its
 * Age lies in the inclusive slider range.
 */
module Filter {
  import opened Wrappers
  import opened Seqs
  import opened Employees

  /** The three sidebar selections; the age range is the slider's (low, high) pair. */
  datatype FilterSpec = FilterSpec(
    departments: seq<string>,
    genders: seq<string>,
    ageLow: int,
    ageHigh: int)

  /** pandas `isin`: a null cell never matches a list of (non-null) selected values. */
  predicate IsIn(v: Option<string>, selected: seq<string>) {
    v.Some? && v.value in selected
  }

  /** `(Age >= low) & (Age <= high)`: a null Age fails both comparisons. */
  predicate AgeWithin(age: Option<int>, low: int, high: int) {
    age.Some? && low <= age.value && age.value <= high
  }

  /** The row-level condition the whole filter amounts to. */
  predicate Admits(schema: Schema, f: FilterSpec, r: Record) {
    && (schema.hasDepartment ==> IsIn(r.department, f.departments))
    && (schema.hasGender ==> IsIn(r.gender, f.genders))
    && AgeWithin(r.age, f.ageLow, f.ageHigh)
  }

  function AdmitsFn(schema: Schema, f: FilterSpec): Record -> bool {
    (r: Record) => Admits(schema, f, r)
  }

  function DepartmentMask(f: FilterSpec): Record -> bool {
    (r: Record) => IsIn(r.department, f.departments)
  }

  function GenderMask(f: FilterSpec): Record -> bool {
    (r: Record) => IsIn(r.gender, f.genders)
  }

  function AgeMask(f: FilterSpec): Record -> bool {
    (r: Record) => AgeWithin(r.age, f.ageLow, f.ageHigh)
  }

  /**
   * The three mask selections in the dashboard's order, on a copy of the
   * table: Department (when present), then Gender (when present), then Age.
   * A table without an Age column makes the Age comparison raise.
   */
  function ApplyFilter(t: Table, f: FilterSpec): (r: Result<Table, Error>)
    ensures r.Failure? <==> !t.schema.hasAge
    ensures r.Failure? ==> r.error == MissingAgeColumn
    ensures r.Success? ==> r.value.schema == t.schema
    ensures r.Success? ==> forall x :: x in r.value.rows <==> x in t.rows && Admits(t.schema, f, x)
  {
    if !t.schema.hasAge then Failure(MissingAgeColumn)
    else
      var byDepartment := if t.schema.hasDepartment then Select(t.rows, DepartmentMask(f)) else t.rows;
      var byGender := if t.schema.hasGender then Select(byDepartment, GenderMask(f)) else byDepartment;
      Success(Table(t.schema, Select(byGender, AgeMask(f))))
  }

  /**
   * The staged filter equals one pass with the combined condition; so the
   * result keeps the input order, and the order of the stages is irrelevant.
   */
  lemma ApplyFilterIsOneSelection(t: Table, f: FilterSpec)
    requires t.schema.hasAge
    ensures ApplyFilter(t, f) == Success(Table(t.schema, Select(t.rows, AdmitsFn(t.schema, f))))
  {
    var s := t.schema;
    var all := (r: Record) => true;
    var dept := if s.hasDepartment then DepartmentMask(f) else all;
    var gender := if s.hasGender then GenderMask(f) else all;
    var deptGender := (r: Record) => dept(r) && gender(r);
    SelectAll(t.rows, all);
    var byDepartment := Select(t.rows, dept);
    SelectAll(byDepartment, all);
    SelectFuse(t.rows, dept, gender, deptGender);
    SelectFuse(t.rows, deptGender, AgeMask(f), AdmitsFn(s, f));
  }

  lemma ApplyFilterPreservesOrder(t: Table, f: FilterSpec)
    requires t.schema.hasAge
    ensures IsSubsequence(ApplyFilter(t, f).value.rows, t.rows)
  {
    ApplyFilterIsOneSelection(t, f);
    SelectIsSubsequence(t.rows, AdmitsFn(t.schema, f));
  }

  /** Filtering the filtered table again with the same selections changes nothing. */
  lemma ApplyFilterIdempotent(t: Table, f: FilterSpec)
    requires t.schema.hasAge
    ensures ApplyFilter(ApplyFilter(t, f).value, f) == ApplyFilter(t, f)
  {
    var once := ApplyFilter(t, f).value;
    ApplyFilterIsOneSelection(t, f);
    ApplyFilterIsOneSelection(once, f);
    SelectIdempotent(t.rows, AdmitsFn(t.schema, f));
  }

  /**
   * An inverted age range, an empty table, or clearing a multiselect whose
   * column exists gives an empty result and no error.
   */
  lemma ApplyFilterEmpty(t: Table, f: FilterSpec)
    requires t.schema.hasAge
    requires || f.ageLow > f.ageHigh
             || t.rows == []
             || (t.schema.hasDepartment && f.departments == [])
             || (t.schema.hasGender && f.genders == [])
    ensures ApplyFilter(t, f) == Success(Table(t.schema, []))
  {
    ApplyFilterIsOneSelection(t, f);
    SelectNone(t.rows, AdmitsFn(t.schema, f));
  }

  /** `narrow` selects no value and no age that `wide` does not select. */
  predicate Narrower(narrow: FilterSpec, wide: FilterSpec) {
    && (forall v :: v in narrow.departments ==> v in wide.departments)
    && (forall v :: v in narrow.genders ==> v in wide.genders)
    && (narrow.ageLow > narrow.ageHigh || (wide.ageLow <= narrow.ageLow && narrow.ageHigh <= wide.ageHigh))
  }

  /** Shrinking a selection or the age range keeps a subsequence of the rows kept before. */
  lemma ApplyFilterMonotone(t: Table, narrow: FilterSpec, wide: FilterSpec)
    requires t.schema.hasAge
    requires Narrower(narrow, wide)
    ensures IsSubsequence(ApplyFilter(t, narrow).value.rows, ApplyFilter(t, wide).value.rows)
    ensures |ApplyFilter(t, narrow).value.rows| <= |ApplyFilter(t, wide).value.rows|
  {
    ApplyFilterIsOneSelection(t, narrow);
    ApplyFilterIsOneSelection(t, wide);
    SelectMonotone(t.rows, AdmitsFn(t.schema, narrow), AdmitsFn(t.schema, wide));
    SubsequenceLength(ApplyFilter(t, narrow).value.rows, ApplyFilter(t, wide).value.rows);
  }
}
