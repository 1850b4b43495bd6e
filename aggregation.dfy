/**
 * The attrition summaries drawn from the filtered rows: the overall
 * `value_counts(normalize=True) * 100` of Attrition, and the per-group rate
 * tables `crosstab(group, Attrition, normalize='index') * 100`.
 * Percentages are exact reals: count * 100 / rows.
 */
module Aggregation {
  import opened Wrappers
  import opened Seqs
  import opened Employees

  function HasAttrition(level: string): Record -> bool {
    (r: Record) => r.attrition == level
  }

  function AttritionIn(levels: seq<string>): Record -> bool {
    (r: Record) => r.attrition in levels
  }

  /** The number of rows whose Attrition is `level`. */
  function CountOf(rows: seq<Record>, level: string): (n: nat)
    ensures n <= |rows|
    ensures n > 0 <==> exists x :: x in rows && x.attrition == level
  {
    var matching := Select(rows, HasAttrition(level));
    assert |matching| > 0 ==> matching[0] in matching;
    |matching|
  }

  /** The Attrition column, in row order. */
  function Attritions(rows: seq<Record>): (r: seq<string>)
    ensures forall v :: v in r <==> exists x :: x in rows && x.attrition == v
  {
    if rows == [] then []
    else
      assert forall x :: x in rows <==> x == rows[0] || x in rows[1..];
      [rows[0].attrition] + Attritions(rows[1..])
  }

  /** The distinct Attrition values present, each once. */
  function Levels(rows: seq<Record>): (r: seq<string>)
    ensures Distinct(r)
    ensures forall v :: v in r <==> exists x :: x in rows && x.attrition == v
  {
    Unique(Attritions(rows))
  }

  /** The first column of a two-column table. */
  function Keys<V>(table: seq<(string, V)>): (k: seq<string>)
    ensures |k| == |table|
    ensures forall i :: 0 <= i < |k| ==> k[i] == table[i].0
  {
    if table == [] then [] else [table[0].0] + Keys(table[1..])
  }

  /** For each of `levels`, in order, that level and the number of rows having it. */
  function Tally(rows: seq<Record>, levels: seq<string>): (r: seq<(string, nat)>)
    ensures Keys(r) == levels
    ensures forall i :: 0 <= i < |r| ==> r[i].1 == CountOf(rows, levels[i])
  {
    if levels == [] then [] else [(levels[0], CountOf(rows, levels[0]))] + Tally(rows, levels[1..])
  }

  function Total(counts: seq<(string, nat)>): nat {
    if counts == [] then 0 else counts[0].1 + Total(counts[1..])
  }

  /** `value_counts()` of Attrition: every value present, with its number of rows. */
  function ValueCounts(rows: seq<Record>): (r: seq<(string, nat)>)
    ensures Distinct(Keys(r))
    ensures forall v :: v in Keys(r) <==> exists x :: x in rows && x.attrition == v
    ensures forall i :: 0 <= i < |r| ==> r[i].1 == CountOf(rows, r[i].0) && r[i].1 > 0
  {
    var levels := Levels(rows);
    assert forall i :: 0 <= i < |levels| ==> levels[i] in levels;
    Tally(rows, levels)
  }

  /** `count / total * 100` on exact reals. */
  function Percent(count: nat, total: nat): (p: real)
    requires total > 0
    ensures 0.0 <= p
    ensures count <= total ==> p <= 100.0
    ensures count == total ==> p == 100.0
  {
    (count as real) * 100.0 / (total as real)
  }

  /** Each count as a percentage of `total`, keys unchanged. */
  function Normalize(counts: seq<(string, nat)>, total: nat): (r: seq<(string, real)>)
    requires total > 0
    ensures Keys(r) == Keys(counts)
    ensures forall i :: 0 <= i < |r| ==> r[i].1 == Percent(counts[i].1, total)
  {
    if counts == [] then [] else [(counts[0].0, Percent(counts[0].1, total))] + Normalize(counts[1..], total)
  }

  function SumPercent(rates: seq<(string, real)>): real {
    if rates == [] then 0.0 else rates[0].1 + SumPercent(rates[1..])
  }

  /** `value_counts(normalize=True) * 100` of Attrition; an empty table gives no entries. */
  function AttritionRate(rows: seq<Record>): (r: seq<(string, real)>)
    ensures r == [] <==> rows == []
    ensures Distinct(Keys(r))
    ensures forall v :: v in Keys(r) <==> exists x :: x in rows && x.attrition == v
    ensures forall i :: 0 <= i < |r| ==> r[i].1 == Percent(CountOf(rows, r[i].0), |rows|)
  {
    if rows == [] then []
    else
      assert rows[0] in rows;
      assert rows[0].attrition in Keys(ValueCounts(rows));
      Normalize(ValueCounts(rows), |rows|)
  }

  /** Splitting the counted levels into the first one and the rest. */
  lemma {:induction false} CountSplit(rows: seq<Record>, levels: seq<string>)
    requires levels != [] && levels[0] !in levels[1..]
    ensures |Select(rows, AttritionIn(levels))|
         == CountOf(rows, levels[0]) + |Select(rows, AttritionIn(levels[1..]))|
  {
    if rows != [] {
      CountSplit(rows[1..], levels);
      assert levels == [levels[0]] + levels[1..];
    }
  }

  /** Counts over distinct levels add up to the rows whose Attrition is one of them. */
  lemma {:induction false} TallyTotal(rows: seq<Record>, levels: seq<string>)
    requires Distinct(levels)
    ensures Total(Tally(rows, levels)) == |Select(rows, AttritionIn(levels))|
  {
    if levels == [] {
      SelectNone(rows, AttritionIn(levels));
    } else {
      CountSplit(rows, levels);
      TallyTotal(rows, levels[1..]);
    }
  }

  /** The value counts add up to the number of rows. */
  lemma ValueCountsSumToRows(rows: seq<Record>)
    ensures Total(ValueCounts(rows)) == |rows|
  {
    TallyTotal(rows, Levels(rows));
    SelectAll(rows, AttritionIn(Levels(rows)));
  }

  lemma PercentAdd(a: nat, b: nat, total: nat)
    requires total > 0
    ensures Percent(a, total) + Percent(b, total) == Percent(a + b, total)
  {
    var n := total as real;
    var x, y := (a as real) * 100.0, (b as real) * 100.0;
    assert (x + y) / n == x / n + y / n;
  }

  lemma {:induction false} NormalizeSum(counts: seq<(string, nat)>, total: nat)
    requires total > 0
    ensures SumPercent(Normalize(counts, total)) == Percent(Total(counts), total)
  {
    if counts != [] {
      NormalizeSum(counts[1..], total);
      PercentAdd(counts[0].1, Total(counts[1..]), total);
    }
  }

  /** Over a non-empty table the attrition percentages add up to 100. */
  lemma AttritionRateSumsTo100(rows: seq<Record>)
    requires rows != []
    ensures SumPercent(AttritionRate(rows)) == 100.0
  {
    ValueCountsSumToRows(rows);
    NormalizeSum(ValueCounts(rows), |rows|);
  }

  function HasGroup(c: Column): Record -> bool {
    (r: Record) => r.Get(c).Some?
  }

  function InGroup(c: Column, g: string): Record -> bool {
    (r: Record) => r.Get(c) == Some(g)
  }

  /** The rows whose column `c` holds `g`. */
  function Members(rows: seq<Record>, c: Column, g: string): (m: seq<Record>)
    ensures forall x :: x in m <==> x in rows && x.Get(c) == Some(g)
  {
    Select(rows, InGroup(c, g))
  }

  /** One row of rates per group: the group's Attrition distribution over `columns`. */
  function GroupRates(rows: seq<Record>, c: Column, groups: seq<string>, columns: seq<string>)
    : (r: seq<(string, seq<(string, real)>)>)
    requires forall g :: g in groups ==> exists x :: x in rows && x.Get(c) == Some(g)
    ensures Keys(r) == groups
    ensures forall i :: 0 <= i < |r| ==> Keys(r[i].1) == columns
  {
    if groups == [] then []
    else
      var members := Members(rows, c, groups[0]);
      assert |members| > 0 by {
        var x :| x in rows && x.Get(c) == Some(groups[0]);
        assert x in members;
      }
      [(groups[0], Normalize(Tally(members, columns), |members|))]
        + GroupRates(rows, c, groups[1..], columns)
  }

  /**
   * `crosstab(rows[c], rows['Attrition'], normalize='index') * 100`: one row per
   * distinct non-null value of `c`, one column per Attrition value found among
   * the rows with a non-null `c` (zero where a group lacks it).
   */
  function CrossTab(rows: seq<Record>, c: Column): (r: seq<(string, seq<(string, real)>)>)
    ensures Distinct(Keys(r))
    ensures forall g :: g in Keys(r) <==> exists x :: x in rows && x.Get(c) == Some(g)
    ensures forall i :: 0 <= i < |r| ==> Distinct(Keys(r[i].1))
    ensures forall i, v :: 0 <= i < |r| ==>
      (v in Keys(r[i].1) <==> exists x :: x in rows && x.Get(c).Some? && x.attrition == v)
  {
    var grouped := Select(rows, HasGroup(c));
    GroupRates(rows, c, Unique(NonNull(rows, c)), Levels(grouped))
  }

  /** A rate table for `c`, or none when the table lacks that column. */
  function RateTable(t: Table, c: Column): (r: Option<seq<(string, seq<(string, real)>)>>)
    ensures r.None? <==> !t.schema.Has(c)
    ensures r.Some? ==> forall g :: g in Keys(r.value) <==> exists x :: x in t.rows && x.Get(c) == Some(g)
  {
    if t.schema.Has(c) then Some(CrossTab(t.rows, c)) else None
  }

  /** A group's rates, when its rows' Attrition values all appear among `columns`, add up to 100. */
  lemma GroupRowSumsTo100(members: seq<Record>, columns: seq<string>)
    requires |members| > 0
    requires Distinct(columns)
    requires forall x :: x in members ==> x.attrition in columns
    ensures SumPercent(Normalize(Tally(members, columns), |members|)) == 100.0
  {
    TallyTotal(members, columns);
    SelectAll(members, AttritionIn(columns));
    NormalizeSum(Tally(members, columns), |members|);
  }

  /** Row `i` of the group table holds the rates of the rows of group `groups[i]`. */
  lemma {:induction false} GroupRatesAt(
    rows: seq<Record>, c: Column, groups: seq<string>, columns: seq<string>, i: nat)
    requires forall g :: g in groups ==> exists x :: x in rows && x.Get(c) == Some(g)
    requires i < |groups|
    ensures |Members(rows, c, groups[i])| > 0
    ensures GroupRates(rows, c, groups, columns)[i]
         == (groups[i], Normalize(Tally(Members(rows, c, groups[i]), columns), |Members(rows, c, groups[i])|))
  {
    var members := Members(rows, c, groups[0]);
    assert |members| > 0 by {
      var x :| x in rows && x.Get(c) == Some(groups[0]);
      assert x in members;
    }
    var tail := GroupRates(rows, c, groups[1..], columns);
    assert GroupRates(rows, c, groups, columns)
        == [(groups[0], Normalize(Tally(members, columns), |members|))] + tail;
    if i > 0 {
      assert forall g :: g in groups[1..] ==> g in groups;
      GroupRatesAt(rows, c, groups[1..], columns, i - 1);
    }
  }

  /**
   * Each cell of a rate table is the share, in percent, of the group's rows
   * having that column's Attrition value: 0 when the group has none of them.
   */
  lemma CrossTabAt(rows: seq<Record>, c: Column)
    ensures forall i :: 0 <= i < |CrossTab(rows, c)| ==>
      var table, columns := CrossTab(rows, c), Levels(Select(rows, HasGroup(c)));
      var members := Members(rows, c, table[i].0);
      && |members| > 0
      && table[i].1 == Normalize(Tally(members, columns), |members|)
      && forall j :: 0 <= j < |table[i].1| ==> table[i].1[j].1 == Percent(CountOf(members, table[i].1[j].0), |members|)
  {
    var groups, columns := Unique(NonNull(rows, c)), Levels(Select(rows, HasGroup(c)));
    forall i | 0 <= i < |CrossTab(rows, c)|
      ensures |Members(rows, c, CrossTab(rows, c)[i].0)| > 0
      ensures CrossTab(rows, c)[i].1
           == Normalize(Tally(Members(rows, c, CrossTab(rows, c)[i].0), columns), |Members(rows, c, CrossTab(rows, c)[i].0)|)
    {
      GroupRatesAt(rows, c, groups, columns, i);
    }
  }

  /** Every group row of a rate table adds up to 100. */
  lemma CrossTabRowsSumTo100(rows: seq<Record>, c: Column)
    ensures forall i :: 0 <= i < |CrossTab(rows, c)| ==> SumPercent(CrossTab(rows, c)[i].1) == 100.0
  {
    var groups, columns := Unique(NonNull(rows, c)), Levels(Select(rows, HasGroup(c)));
    forall i | 0 <= i < |CrossTab(rows, c)|
      ensures SumPercent(CrossTab(rows, c)[i].1) == 100.0
    {
      GroupRatesAt(rows, c, groups, columns, i);
      GroupRowSumsTo100(Members(rows, c, groups[i]), columns);
    }
  }
}
