/**
 * `HipsterJazzbo\Landlord\Scopes\BelongsToOneTenant`: a scope object built with one
 * column and one id that filters on `table.column = id`.
 */
module BelongsToOneTenant {
  import opened Php
  import opened Eloquent

  datatype OneTenant = OneTenant(tenantColumn: Value, tenantId: Value)

  /** `new BelongsToOneTenant()`: both constructor arguments default to null. */
  const Default: OneTenant := OneTenant(Null, Null)

  /** The interpolated `"{table}.{column}"` the scope filters on; a null column interpolates as empty. */
  function Column(s: OneTenant, m: Model): string {
    m.table + "." + Render(s.tenantColumn)
  }

  /**
   * `apply`: appends exactly one and-joined where on the interpolated column. Eloquent
   * turns `where($c, '=', null)` into `whereNull($c)`, so a null id (the no-argument
   * constructor) filters on `IS NULL` rather than comparing with null.
   */
  function Apply(s: OneTenant, m: Model, q: Query): (r: Query)
    ensures |r| == |q| + 1 && r[..|q|] == q
    ensures r[|q|].boolean == And
    ensures s.tenantId != Null ==> r[|q|].Basic? && r[|q|].operator == "=" && r[|q|].value == s.tenantId
    ensures s.tenantId == Null ==> r[|q|].NullCheck?
    ensures s.tenantColumn.Str? ==> r[|q|].column == Qualified(m.table, s.tenantColumn.s)
    ensures s.tenantColumn.Null? ==> r[|q|].column == m.table + "."
  {
    var w := if s.tenantId == Null then NullCheck(Column(s, m), And) else Basic(Column(s, m), "=", s.tenantId, And);
    q + [w]
  }

  /** The default scope object matches exactly the rows whose `{table}.` column is null. */
  lemma DefaultFiltersOnNull(m: Model, q: Query)
    ensures Apply(Default, m, q) == q + [NullCheck(m.table + ".", And)]
  {
  }

  /** The constraint depends on the model only through its table name. */
  lemma ApplyReadsOnlyTable(s: OneTenant, m1: Model, m2: Model, q: Query)
    requires m1.table == m2.table
    ensures Apply(s, m1, q) == Apply(s, m2, q)
  {
  }

  /** Two scope objects with different string columns never produce the same constraint. */
  lemma DistinctColumnsDistinctWheres(s1: OneTenant, s2: OneTenant, m: Model, q: Query)
    requires s1.tenantColumn.Str? && s2.tenantColumn.Str? && s1.tenantColumn != s2.tenantColumn
    ensures Apply(s1, m, q) != Apply(s2, m, q)
  {
    var p := m.table + ".";
    var c1 := Apply(s1, m, q)[|q|].column;
    var c2 := Apply(s2, m, q)[|q|].column;
    assert c1[|p|..] == s1.tenantColumn.s;
    assert c2[|p|..] == s2.tenantColumn.s;
  }
}
