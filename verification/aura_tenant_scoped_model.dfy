/**
 * The instance side of the AuraIsHere `TenantScopedModelTrait`: the raw tenant where
 * clause it formats for the scope object. Its `getTenantColumns` is
 * `Eloquent.DeclaredColumns` with the configured default as a parameter; its static
 * methods are `AuraTenantScopedModelStatic`.
 */
module AuraTenantScopedModel {
  import opened Php
  import opened Eloquent

  /** The global-scope key under which the trait's boot method registers the tenant scope object. */
  const TenantScopeClass: string := "AuraIsHere\\LaravelMultiTenant\\TenantScope"

  /** `getTenantWhereClause`: the SQL text `{table}.{column} = '{id}'`, without any quoting of the id. */
  function TenantWhereClause(m: Model, column: string, id: Value): string {
    Qualified(m.table, column) + " = '" + Render(id) + "'"
  }

  /**
   * The clause read positionally: the qualified column, then ` = '`, then the rendered
   * id, then the closing quote.
   */
  lemma TenantWhereClauseLayout(m: Model, column: string, id: Value)
    ensures var s := TenantWhereClause(m, column, id);
      && |s| == |m.table| + |column| + |Render(id)| + 6
      && s[..|m.table| + 1 + |column|] == Qualified(m.table, column)
      && s[|m.table| + 1 + |column|..|m.table| + 5 + |column|] == " = '"
      && s[|m.table| + 5 + |column|..|s| - 1] == Render(id)
      && s[|s| - 1] == '\''
  {
    var q, r := Qualified(m.table, column), Render(id);
    assert |q| == |m.table| + 1 + |column|;
    ConcatSlices(q, " = '", r, "'");
  }

  /** The four parts of a concatenation can be read back by position. */
  lemma ConcatSlices<T>(a: seq<T>, b: seq<T>, c: seq<T>, e: seq<T>)
    ensures var s := a + b + c + e;
      && |s| == |a| + |b| + |c| + |e|
      && s[..|a|] == a
      && s[|a|..|a| + |b|] == b
      && s[|a| + |b|..|a| + |b| + |c|] == c
      && s[|a| + |b| + |c|..] == e
  {
    var s := a + b + c + e;
    assert s[..|a|] == a;
    assert s[|a|..|a| + |b|] == b;
    assert s[|a| + |b|..|a| + |b| + |c|] == c;
    assert s[|a| + |b| + |c|..] == e;
  }

  /** For a fixed column, the clause text determines the rendered id and vice versa. */
  lemma WhereClauseDeterminesId(m: Model, column: string, a: Value, b: Value)
    ensures TenantWhereClause(m, column, a) == TenantWhereClause(m, column, b) <==> Render(a) == Render(b)
  {
    if TenantWhereClause(m, column, a) == TenantWhereClause(m, column, b) {
      TenantWhereClauseLayout(m, column, a);
      TenantWhereClauseLayout(m, column, b);
    }
  }

  /** The clauses of two different integer tenants of the same column differ. */
  lemma IntClausesDiffer(m: Model, column: string, a: int, b: int)
    requires a != b
    ensures TenantWhereClause(m, column, Int(a)) != TenantWhereClause(m, column, Int(b))
  {
    if TenantWhereClause(m, column, Int(a)) == TenantWhereClause(m, column, Int(b)) {
      WhereClauseDeterminesId(m, column, Int(a), Int(b));
      RenderInjectiveOnInts(a, b);
    }
  }

  /** The clause text of the trait's own test: table `table`, column `column`, id 1. */
  lemma WhereClauseExample(m: Model)
    requires m.table == "table"
    ensures TenantWhereClause(m, "column", Int(1)) == "table.column = '1'"
  {
    assert Render(Int(1)) == "1";
  }
}
