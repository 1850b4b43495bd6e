/** A worked example: five employees, filtered to the age range 30..40. */
module Scenario {
  import opened Wrappers
  import opened Seqs
  import opened Employees
  import opened Filter
  import opened Aggregation

  function Employee(age: int, attrition: string): Record {
    Record(None, None, Some(age), attrition)
  }

  function Staff(): seq<Record> {
    [Employee(25, "Yes"), Employee(30, "No"), Employee(35, "Yes"), Employee(40, "No"), Employee(45, "No")]
  }

  function MidCareer(): seq<Record> {
    [Employee(30, "No"), Employee(35, "Yes"), Employee(40, "No")]
  }

  /** Both ends of the range are kept; 25 and 45 are dropped. */
  lemma FilterKeepsInclusiveRange()
    ensures ApplyFilter(Table(Schema(false, false, true), Staff()), FilterSpec([], [], 30, 40))
         == Success(Table(Schema(false, false, true), MidCareer()))
  {
    var rows := Staff();
    var mask := AgeMask(FilterSpec([], [], 30, 40));
    assert Select(rows[4..], mask) == [];
    assert Select(rows[3..], mask) == [rows[3]];
    assert Select(rows[2..], mask) == [rows[2], rows[3]];
    assert Select(rows[1..], mask) == MidCareer();
  }

  lemma LevelsOfMidCareer()
    ensures Levels(MidCareer()) == ["No", "Yes"]
  {
    var attritions := Attritions(MidCareer());
    assert attritions == ["No", "Yes", "No"];
    assert Unique(attritions[..1]) == ["No"];
    assert Unique(attritions[..2]) == ["No", "Yes"];
  }

  lemma CountsOfMidCareer()
    ensures ValueCounts(MidCareer()) == [("No", 2), ("Yes", 1)]
  {
    var kept := MidCareer();
    LevelsOfMidCareer();
    assert Select(kept, HasAttrition("No")) == [kept[0], kept[2]];
    assert Select(kept, HasAttrition("Yes")) == [kept[1]];
  }

  /** One leaver among three: 33 1/3 percent "Yes", 66 2/3 percent "No". */
  lemma RateOfMidCareer()
    ensures AttritionRate(MidCareer()) == [("No", 200.0 / 3.0), ("Yes", 100.0 / 3.0)]
  {
    CountsOfMidCareer();
  }
}
