/**
 * The scope object of the AuraIsHere revision (`AuraIsHere\LaravelMultiTenant\TenantScope`
 * implementing `ScopeInterface`): strict tenant selection, raw where clauses that `remove`
 * recognises by their SQL text, and overwriting `creating`. The tenant registry itself
 * is `ScopeContext`.
 */
module AuraTenantScope {
  import opened Wrappers
  import opened Php
  import opened PhpArray
  import opened Eloquent
  import opened ScopeContext
  import opened AuraTenantScopedModel

  /** `getModelTenants`: every declared column with its id, or `TenantColumnUnknownException`. */
  function ModelTenants(c: Context, m: Model, d: seq<string>): (r: Result<Arr<Value>, Error>)
    ensures r.Ok? <==> forall k :: k in DeclaredColumns(m, d) ==> HasTenant(c, k)
    ensures r.Ok? ==> forall k :: Get(r.value, k) == (if k in DeclaredColumns(m, d) then Get(c.tenants, k) else None)
    ensures r.Err? ==> r.error.column in DeclaredColumns(m, d) && !HasTenant(c, r.error.column)
  {
    StrictModelTenants(c, DeclaredColumns(m, d))
  }

  /** And-joined raw wheres carrying the given clause texts, in order. */
  function AndWheres(clauses: seq<string>): (ws: Query)
    ensures |ws| == |clauses|
    ensures forall i :: 0 <= i < |clauses| ==> ws[i] == Raw(clauses[i], And)
  {
    seq(|clauses|, i requires 0 <= i < |clauses| => Raw(clauses[i], And))
  }

  /** The raw where clauses `whereRaw` adds for the given tenants, in order. */
  function TenantWheres(m: Model, tenants: seq<(string, Value)>): (ws: Query)
    ensures |ws| == |tenants|
    ensures forall i :: 0 <= i < |tenants| ==> ws[i] == Raw(TenantWhereClause(m, tenants[i].0, tenants[i].1), And)
  {
    AndWheres(Clauses(m, tenants))
  }

  /**
   * `apply`: nothing when disabled; otherwise one raw where per model tenant is appended.
   * With distinct declared columns, the appended clauses follow the declared order.
   */
  function Apply(c: Context, m: Model, d: seq<string>, q: Query): (r: Result<Query, Error>)
    ensures !c.enabled ==> r == Ok(q)
    ensures c.enabled ==> (r.Ok? <==> forall k :: k in DeclaredColumns(m, d) ==> HasTenant(c, k))
    ensures r.Ok? ==> |q| <= |r.value| && r.value[..|q|] == q
    ensures c.enabled && r.Ok? && Distinct(DeclaredColumns(m, d)) ==>
      var cols := DeclaredColumns(m, d);
      && |r.value| == |q| + |cols|
      && forall i :: 0 <= i < |cols| ==>
           && HasTenant(c, cols[i])
           && r.value[|q| + i] == Raw(TenantWhereClause(m, cols[i], Get(c.tenants, cols[i]).value), And)
  {
    if !c.enabled then Ok(q)
    else
      match ModelTenants(c, m, d)
      case Err(e) => Err(e)
      case Ok(tenants) =>
        var r := q + TenantWheres(m, tenants);
        assert r[..|q|] == q;
        if Distinct(DeclaredColumns(m, d)) then
          StrictOrder(c, DeclaredColumns(m, d));
          Ok(r)
        else Ok(r)
  }

  /** A raw where whose SQL text is exactly `sql`, under either connective. */
  predicate IsClause(w: Where, sql: string) {
    w.Raw? && w.sql == sql
  }

  /** `isTenantConstraint`: a raw where whose SQL is exactly the clause for this column and id. */
  predicate IsTenantConstraint(m: Model, w: Where, column: string, id: Value) {
    IsClause(w, TenantWhereClause(m, column, id))
  }

  /** A where is a tenant constraint exactly when it is the engine's clause, under either connective. */
  lemma ConstraintIsEngineClause(m: Model, w: Where, column: string, id: Value)
    ensures IsTenantConstraint(m, w, column, id) <==> w == Raw(TenantWhereClause(m, column, id), w.boolean)
    ensures IsTenantConstraint(m, Raw(TenantWhereClause(m, column, id), Or), column, id)
  {
  }

  /** The clause texts `remove` compares against, one per tenant, in order. */
  function Clauses(m: Model, tenants: seq<(string, Value)>): (r: seq<string>)
    ensures |r| == |tenants|
    ensures forall i :: 0 <= i < |tenants| ==> r[i] == TenantWhereClause(m, tenants[i].0, tenants[i].1)
  {
    seq(|tenants|, i requires 0 <= i < |tenants| => TenantWhereClause(m, tenants[i].0, tenants[i].1))
  }

  /** Does `w` carry one of the given clause texts? */
  predicate IsAnyClause(w: Where, clauses: seq<string>) {
    w.Raw? && w.sql in clauses
  }

  /** Carrying one of the tenants' clause texts is being one of their tenant constraints. */
  lemma AnyClauseIsSomeConstraint(m: Model, w: Where, tenants: seq<(string, Value)>)
    ensures IsAnyClause(w, Clauses(m, tenants)) <==>
      exists i :: 0 <= i < |tenants| && IsTenantConstraint(m, w, tenants[i].0, tenants[i].1)
  {
    var cl := Clauses(m, tenants);
    if IsAnyClause(w, cl) {
      var i :| 0 <= i < |cl| && cl[i] == w.sql;
      assert IsTenantConstraint(m, w, tenants[i].0, tenants[i].1);
    }
    if exists i :: 0 <= i < |tenants| && IsTenantConstraint(m, w, tenants[i].0, tenants[i].1) {
      var i :| 0 <= i < |tenants| && IsTenantConstraint(m, w, tenants[i].0, tenants[i].1);
      assert cl[i] == w.sql;
    }
  }

  /** The index of the first raw where carrying `sql`, or `|ws|` when there is none. */
  function FirstClause(ws: Query, sql: string): (i: nat)
    ensures i <= |ws|
    ensures i < |ws| ==> IsClause(ws[i], sql)
    ensures forall j :: 0 <= j < i ==> !IsClause(ws[j], sql)
  {
    if |ws| == 0 then 0
    else if IsClause(ws[0], sql) then 0
    else 1 + FirstClause(ws[1..], sql)
  }

  /** The inner loop of `remove` for one tenant's clause text: unset the first matching where, then stop. */
  function RemoveFirst(ws: Query, sql: string): (r: Query)
    ensures var i := FirstClause(ws, sql);
      r == if i < |ws| then ws[..i] + ws[i + 1..] else ws
  {
    if |ws| == 0 then ws
    else if IsClause(ws[0], sql) then ws[1..]
    else
      var rest := RemoveFirst(ws[1..], sql);
      DropAfterHead(ws, rest, FirstClause(ws[1..], sql));
      [ws[0]] + rest
  }

  /** Dropping position `i` of the tail is dropping position `i + 1` of the whole. */
  lemma DropAfterHead<T>(ws: seq<T>, rest: seq<T>, i: nat)
    requires 0 < |ws| && i <= |ws| - 1
    requires rest == if i < |ws| - 1 then ws[1..][..i] + ws[1..][i + 1..] else ws[1..]
    ensures [ws[0]] + rest == if i + 1 < |ws| then ws[..i + 1] + ws[i + 2..] else ws
  {
    if i < |ws| - 1 {
      assert ws[..i + 1] == [ws[0]] + ws[1..][..i];
      assert ws[i + 2..] == ws[1..][i + 1..];
    } else {
      assert ws == [ws[0]] + ws[1..];
    }
  }

  /** The outer loop of `remove`: one bounded removal per tenant clause, in order. */
  function RemoveAll(ws: Query, clauses: seq<string>): (r: Query)
    ensures |ws| - |clauses| <= |r| <= |ws|
    ensures multiset(r) <= multiset(ws)
    ensures forall w: Where :: !w.Raw? ==> multiset(r)[w] == multiset(ws)[w]
    ensures forall s :: CountSql(r, s) == Monus(CountSql(ws, s), multiset(clauses)[s])
    decreases |clauses|
  {
    if |clauses| == 0 then ws
    else
      var once := RemoveFirst(ws, clauses[0]);
      var r := RemoveAll(once, clauses[1..]);
      RemoveAllStep(ws, clauses[0], once, r, |clauses|);
      RemoveAllCountStep(ws, clauses, once, r);
      r
  }

  /** How many raw wheres carry exactly the SQL text `sql`. */
  function CountSql(ws: Query, sql: string): (n: nat)
    ensures n <= |ws|
  {
    if |ws| == 0 then 0
    else (if IsClause(ws[0], sql) then 1 else 0) + CountSql(ws[1..], sql)
  }

  /** `a - b`, but never below zero. */
  function Monus(a: nat, b: nat): nat {
    if a > b then a - b else 0
  }

  /** The bounded removal for `sql` takes out one where carrying `sql` when there is one, and none carrying another text. */
  lemma {:induction false} RemoveFirstCounts(ws: Query, sql: string, s: string)
    ensures CountSql(RemoveFirst(ws, sql), s) == if s == sql then Monus(CountSql(ws, s), 1) else CountSql(ws, s)
    decreases |ws|
  {
    if |ws| > 0 && !IsClause(ws[0], sql) {
      var rest := RemoveFirst(ws[1..], sql);
      RemoveFirstCounts(ws[1..], sql, s);
      assert ([ws[0]] + rest)[1..] == rest;
    }
  }

  /** One bounded removal in front of the rest of the outer loop keeps the per-text counts. */
  lemma RemoveAllCountStep(ws: Query, clauses: seq<string>, once: Query, r: Query)
    requires |clauses| > 0 && once == RemoveFirst(ws, clauses[0])
    requires forall s :: CountSql(r, s) == Monus(CountSql(once, s), multiset(clauses[1..])[s])
    ensures forall s :: CountSql(r, s) == Monus(CountSql(ws, s), multiset(clauses)[s])
  {
    forall s
      ensures CountSql(r, s) == Monus(CountSql(ws, s), multiset(clauses)[s])
    {
      var a, b := CountSql(ws, s), CountSql(once, s);
      var k, e := multiset(clauses[1..])[s], if clauses[0] == s then 1 else 0;
      assert b == Monus(a, e) by {
        RemoveFirstCounts(ws, clauses[0], s);
      }
      assert multiset(clauses)[s] == k + e by {
        assert clauses == [clauses[0]] + clauses[1..];
      }
    }
  }

  /** One bounded removal in front of the rest of the outer loop keeps its bounds. */
  lemma RemoveAllStep(ws: Query, sql: string, once: Query, r: Query, n: nat)
    requires n > 0 && once == RemoveFirst(ws, sql)
    requires |once| - (n - 1) <= |r| <= |once|
    requires multiset(r) <= multiset(once)
    requires forall w: Where :: !w.Raw? ==> multiset(r)[w] == multiset(once)[w]
    ensures |ws| - n <= |r| <= |ws|
    ensures multiset(r) <= multiset(ws)
    ensures forall w: Where :: !w.Raw? ==> multiset(r)[w] == multiset(ws)[w]
  {
    var i := FirstClause(ws, sql);
    if i < |ws| {
      assert |once| == |ws| - 1;
      assert multiset(once) == multiset(ws) - multiset{ws[i]} by {
        RemovedOne(ws, sql);
      }
      assert ws[i].Raw?;
      forall w: Where | !w.Raw?
        ensures multiset(r)[w] == multiset(ws)[w]
      {
        assert w != ws[i];
      }
    }
  }

  /** The outer loop keeps every where that carries no listed clause, in its original order. */
  lemma {:induction false} RemoveAllKeepsOthers(ws: Query, clauses: seq<string>, all: seq<string>)
    requires forall s :: s in clauses ==> s in all
    ensures Others(RemoveAll(ws, clauses), all) == Others(ws, all)
    decreases |clauses|
  {
    if |clauses| > 0 {
      var once := RemoveFirst(ws, clauses[0]);
      RemoveFirstKeepsOthers(ws, clauses[0], all);
      assert forall s :: s in clauses[1..] ==> s in all by {
        forall s | s in clauses[1..]
          ensures s in all
        {
          var i :| 0 <= i < |clauses[1..]| && clauses[1..][i] == s;
          assert clauses[i + 1] == s;
        }
      }
      RemoveAllKeepsOthers(once, clauses[1..], all);
    }
  }

  /** The wheres that carry none of the given clause texts, in their original order. */
  function Others(ws: Query, clauses: seq<string>): (r: Query)
    ensures |r| <= |ws|
  {
    if |ws| == 0 then []
    else (if IsAnyClause(ws[0], clauses) then [] else [ws[0]]) + Others(ws[1..], clauses)
  }

  lemma {:induction false} OthersAppend(a: Query, b: Query, clauses: seq<string>)
    ensures Others(a + b, clauses) == Others(a, clauses) + Others(b, clauses)
    decreases |a|
  {
    if |a| > 0 {
      assert (a + b)[1..] == a[1..] + b;
      OthersAppend(a[1..], b, clauses);
    } else {
      assert a + b == b;
    }
  }

  /** A where that carries no listed clause occurs as often among the others as in the whole query. */
  lemma {:induction false} OthersCount(ws: Query, clauses: seq<string>, w: Where)
    requires !IsAnyClause(w, clauses)
    ensures multiset(Others(ws, clauses))[w] == multiset(ws)[w]
    decreases |ws|
  {
    if |ws| > 0 {
      OthersCount(ws[1..], clauses, w);
      assert ws == [ws[0]] + ws[1..];
    }
  }

  /** The bounded removal for one listed clause leaves the other wheres, and their order, alone. */
  lemma RemoveFirstKeepsOthers(ws: Query, sql: string, all: seq<string>)
    requires sql in all
    ensures Others(RemoveFirst(ws, sql), all) == Others(ws, all)
  {
    var i := FirstClause(ws, sql);
    if i < |ws| {
      DropClauseKeepsOthers(ws, i, all);
    }
  }

  /** Dropping one where that carries a listed clause does not change the other wheres. */
  lemma DropClauseKeepsOthers(ws: Query, i: nat, all: seq<string>)
    requires i < |ws| && IsAnyClause(ws[i], all)
    ensures Others(ws[..i] + ws[i + 1..], all) == Others(ws, all)
  {
    var a, x, b := ws[..i], ws[i], ws[i + 1..];
    assert Others([x], all) == [] by {
      assert [x][1..] == [];
    }
    assert ws == a + ([x] + b);
    OthersAppend(a, [x] + b, all);
    OthersAppend([x], b, all);
    OthersAppend(a, b, all);
  }

  /** A bounded removal takes out one raw where at most, and nothing else. */
  lemma RemovedOne(ws: Query, sql: string)
    ensures var i := FirstClause(ws, sql);
      && (i < |ws| ==> multiset(RemoveFirst(ws, sql)) == multiset(ws) - multiset{ws[i]})
      && (i == |ws| ==> RemoveFirst(ws, sql) == ws)
  {
    MultisetDrop(ws, RemoveFirst(ws, sql), FirstClause(ws, sql));
  }

  /** Dropping one position removes one occurrence of its element. */
  lemma MultisetDrop<T>(ws: seq<T>, r: seq<T>, i: nat)
    requires i <= |ws|
    requires r == if i < |ws| then ws[..i] + ws[i + 1..] else ws
    ensures i < |ws| ==> multiset(r) == multiset(ws) - multiset{ws[i]}
  {
    if i < |ws| {
      assert ws == ws[..i] + [ws[i]] + ws[i + 1..];
    }
  }

  /**
   * `remove`: for every model tenant, the first raw where carrying its clause is deleted.
   * It does not look at the `enabled` flag, and it fails like `getModelTenants` does.
   */
  function Remove(c: Context, m: Model, d: seq<string>, q: Query): (r: Result<Query, Error>)
    ensures r.Ok? <==> forall k :: k in DeclaredColumns(m, d) ==> HasTenant(c, k)
    ensures r.Ok? ==> |q| - |DeclaredColumns(m, d)| <= |r.value| <= |q|
    ensures r.Ok? ==> multiset(r.value) <= multiset(q)
    ensures r.Ok? ==> forall w: Where :: !w.Raw? ==> multiset(r.value)[w] == multiset(q)[w]
    ensures r.Ok? ==> var cl := Clauses(m, ModelTenants(c, m, d).value);
      && Others(r.value, cl) == Others(q, cl)
      && (forall w: Where :: !IsAnyClause(w, cl) ==> multiset(r.value)[w] == multiset(q)[w])
      && forall sql :: CountSql(r.value, sql) == Monus(CountSql(q, sql), multiset(cl)[sql])
  {
    match ModelTenants(c, m, d)
    case Err(e) => Err(e)
    case Ok(tenants) =>
      SelectionBounded(c, m, d, tenants);
      var cl := Clauses(m, tenants);
      var r := RemoveAll(q, cl);
      RemoveAllKeepsOthers(q, cl, cl);
      assert forall w: Where :: !IsAnyClause(w, cl) ==> multiset(r)[w] == multiset(q)[w] by {
        forall w: Where | !IsAnyClause(w, cl)
          ensures multiset(r)[w] == multiset(q)[w]
        {
          OthersCount(r, cl, w);
          OthersCount(q, cl, w);
        }
      }
      Ok(r)
  }

  /** `isTenantConstraint` ignores the `and`/`or` connective; the round trip needs the query's raw wheres to be and-joined. */
  ghost predicate RawWheresAreAnd(ws: Query) {
    forall w | w in ws :: w.Raw? ==> w.boolean == And
  }

  /** If a clause is among and-joined wheres, the bounded removal takes out one copy of it. */
  lemma RemoveFirstPresent(ws: Query, sql: string)
    requires RawWheresAreAnd(ws)
    requires Raw(sql, And) in ws
    ensures var once := RemoveFirst(ws, sql);
      && multiset(once) == multiset(ws) - multiset{Raw(sql, And)}
      && RawWheresAreAnd(once)
  {
    var w0 := Raw(sql, And);
    var i := FirstClause(ws, sql);
    assert i < |ws| by {
      var j :| 0 <= j < |ws| && ws[j] == w0;
      assert IsClause(ws[j], sql);
    }
    assert ws[i] in ws;
    assert ws[i] == w0;
    RemovedOne(ws, sql);
    var once := RemoveFirst(ws, sql);
    forall w | w in once
      ensures w.Raw? ==> w.boolean == And
    {
      assert w in multiset(once);
      assert w in multiset(ws);
    }
  }

  /** Removing clauses from a query that holds them and-joined takes out exactly those wheres. */
  lemma {:induction false} RemoveAllMultiset(ws: Query, clauses: seq<string>)
    requires RawWheresAreAnd(ws)
    requires multiset(AndWheres(clauses)) <= multiset(ws)
    ensures multiset(RemoveAll(ws, clauses)) == multiset(ws) - multiset(AndWheres(clauses))
    decreases |clauses|
  {
    if |clauses| > 0 {
      var w0 := Raw(clauses[0], And);
      var rest := AndWheres(clauses[1..]);
      assert multiset(AndWheres(clauses)) == multiset{w0} + multiset(rest) by {
        assert AndWheres(clauses) == [w0] + rest;
      }
      assert w0 in ws by {
        assert w0 in multiset(ws);
      }
      var once := RemoveFirst(ws, clauses[0]);
      assert RawWheresAreAnd(once) && multiset(rest) <= multiset(once)
        && multiset(once) - multiset(rest) == multiset(ws) - multiset(AndWheres(clauses)) by {
        RemoveFirstPresent(ws, clauses[0]);
        MultisetStep(multiset(ws), w0, multiset(rest), multiset(once));
      }
      RemoveAllMultiset(once, clauses[1..]);
      assert RemoveAll(ws, clauses) == RemoveAll(once, clauses[1..]);
    }
  }

  /** Taking out one element first and the rest afterwards is taking out all of them. */
  lemma MultisetStep<T>(a: multiset<T>, w: T, rest: multiset<T>, once: multiset<T>)
    requires multiset{w} + rest <= a
    requires once == a - multiset{w}
    ensures rest <= once
    ensures once - rest == a - (multiset{w} + rest)
  {
  }

  /**
   * `apply` followed by `remove` restores the original wheres as a multiset. A later
   * user clause identical to an engine clause may be the one removed in its place,
   * which is why only the multiset, not the order, comes back.
   */
  lemma ApplyThenRemove(c: Context, m: Model, d: seq<string>, q: Query)
    requires c.enabled
    requires Apply(c, m, d, q).Ok?
    requires RawWheresAreAnd(q)
    ensures Remove(c, m, d, Apply(c, m, d, q).value).Ok?
    ensures multiset(Remove(c, m, d, Apply(c, m, d, q).value).value) == multiset(q)
  {
    var t := ModelTenants(c, m, d).value;
    var applied := Apply(c, m, d, q).value;
    var cl := Clauses(m, t);
    assert applied == q + AndWheres(cl);
    AppendedAreAnd(m, q, t);
    MultisetCancel(q, AndWheres(cl));
    RemoveAllMultiset(applied, cl);
  }

  /** The clauses `apply` appends are and-joined, so appending them keeps `RawWheresAreAnd`. */
  lemma AppendedAreAnd(m: Model, q: Query, t: seq<(string, Value)>)
    requires RawWheresAreAnd(q)
    ensures RawWheresAreAnd(q + TenantWheres(m, t))
  {
    var applied := q + TenantWheres(m, t);
    forall w | w in applied
      ensures w.Raw? ==> w.boolean == And
    {
      if w !in q {
        var j :| 0 <= j < |applied| && applied[j] == w;
      }
    }
  }

  lemma MultisetCancel<T>(q: seq<T>, w: seq<T>)
    ensures multiset(w) <= multiset(q + w)
    ensures multiset(q + w) - multiset(w) == multiset(q)
  {
  }


  /** Apply, remove, apply yields the same constraint multiset as applying once. */
  lemma ApplyRemoveApply(c: Context, m: Model, d: seq<string>, q: Query)
    requires c.enabled
    requires Apply(c, m, d, q).Ok?
    requires RawWheresAreAnd(q)
    ensures var removed := Remove(c, m, d, Apply(c, m, d, q).value);
      removed.Ok? && Apply(c, m, d, removed.value).Ok?
      && multiset(Apply(c, m, d, removed.value).value) == multiset(Apply(c, m, d, q).value)
  {
    ApplyThenRemove(c, m, d, q);
    var t := ModelTenants(c, m, d).value;
    var removed := Remove(c, m, d, Apply(c, m, d, q).value).value;
    assert Apply(c, m, d, removed).value == removed + TenantWheres(m, t);
    assert Apply(c, m, d, q).value == q + TenantWheres(m, t);
  }

  /** `remove` does not consult the `enabled` flag: a disabled scope still strips matching clauses. */
  lemma RemoveIgnoresEnabled(c: Context, m: Model, d: seq<string>, q: Query)
    ensures Remove(Disable(c), m, d, q) == Remove(c, m, d, q)
    ensures Remove(Enable(c), m, d, q) == Remove(c, m, d, q)
  {
    SelectionSeesOnlyTenants(Disable(c), c, DeclaredColumns(m, d), []);
    SelectionSeesOnlyTenants(Enable(c), c, DeclaredColumns(m, d), []);
  }

  /** The clause of another integer tenant of the same column is not taken for this tenant's. */
  lemma OtherTenantNotAConstraint(m: Model, column: string, a: int, b: int, boolean: Connective)
    requires a != b
    ensures !IsTenantConstraint(m, Raw(TenantWhereClause(m, column, Int(b)), boolean), column, Int(a))
  {
    IntClausesDiffer(m, column, a, b);
  }

  /**
   * `creating`: when the model still has the tenant scope registered, every declared
   * column is overwritten with its id (failing like `getModelTenants`); otherwise the
   * model is left alone. The `enabled` flag is not consulted.
   */
  function Creating(c: Context, m: Model, d: seq<string>): (r: Result<Model, Error>)
    ensures TenantScopeClass !in m.globalScopes ==> r == Ok(m)
    ensures TenantScopeClass in m.globalScopes ==> (r.Ok? <==> forall k :: k in DeclaredColumns(m, d) ==> HasTenant(c, k))
    ensures r.Ok? ==> r.value == m.(attributes := r.value.attributes)
    ensures r.Ok? && TenantScopeClass in m.globalScopes ==>
      forall k :: k in DeclaredColumns(m, d) ==> k in r.value.attributes && Get(c.tenants, k) == Some(r.value.attributes[k])
    ensures r.Ok? ==> forall k :: k !in DeclaredColumns(m, d) ==>
      (k in r.value.attributes <==> k in m.attributes) && (k in m.attributes ==> r.value.attributes[k] == m.attributes[k])
  {
    if TenantScopeClass !in m.globalScopes then Ok(m)
    else
      match ModelTenants(c, m, d)
      case Err(e) => Err(e)
      case Ok(tenants) => Ok(m.(attributes := Overwrite(m.attributes, tenants)))
  }

  /** When the strict selection succeeds, this `creating` stamps what the permissive one of the later revisions does. */
  lemma CreatingAgreesWithScopeContext(c: Context, m: Model, d: seq<string>)
    requires Creating(c, m, d).Ok?
    ensures Creating(c, m, d).value == ScopeContext.Creating(c, m, TenantScopeClass, d)
  {
    if TenantScopeClass in m.globalScopes {
      StrictAgreesWithPermissive(c, DeclaredColumns(m, d));
    }
  }

  /** `getModelTenants` wraps a single column name into a one-element list. */
  lemma ScalarColumnIsOneElementList(c: Context, m: Model, d: seq<string>, column: string)
    requires m.tenantColumns == Some(One(column))
    ensures ModelTenants(c, m, d) == ModelTenants(c, m.(tenantColumns := Some(Many([column]))), d)
    ensures ModelTenants(c, m, d).Ok? <==> HasTenant(c, column)
  {
  }

  /**
   * With the default key unset in configuration, `config()` gives null, which
   * `[$modelTenantColumns]` wraps into the single column `""` (null as an array key).
   * A model without `$tenantColumns` then fails unless a tenant is registered under `""`.
   */
  lemma UnconfiguredDefaultFails(c: Context, m: Model)
    requires m.tenantColumns.None?
    ensures ModelTenants(c, m, [""]).Ok? <==> HasTenant(c, "")
    ensures !HasTenant(c, "") ==> ModelTenants(c, m, [""]) == Err(TenantColumnUnknown(""))
  {
  }

  /** With a successful selection, `remove` is the outer loop over the selected tenants' clauses. */
  lemma RemoveRunsClauses(c: Context, m: Model, d: seq<string>, q: Query)
    requires ModelTenants(c, m, d).Ok?
    ensures Remove(c, m, d, q) == Ok(RemoveAll(q, Clauses(m, ModelTenants(c, m, d).value)))
  {
  }

  /** The outer loop over a single clause is one bounded removal. */
  lemma RemoveAllOne(ws: Query, sql: string)
    ensures RemoveAll(ws, [sql]) == RemoveFirst(ws, sql)
  {
    assert [sql][1..] == [];
  }

  /** The removal scenario of the scope's own test: the tenant clause goes, the null check stays. */
  lemma RemoveExample(m: Model, d: seq<string>)
    requires m.table == "table" && m.tenantColumns == Some(Many(["column"]))
    ensures var c := AddTenant(Initial, "column", Int(1));
      Remove(c, m, d, [NullCheck("foo", And), Raw("table.column = '1'", And)]) == Ok([NullCheck("foo", And)])
  {
    var c := AddTenant(Initial, "column", Int(1));
    var t := [("column", Int(1))];
    assert ModelTenants(c, m, d) == Ok(t) by {
      assert DeclaredColumns(m, d) == ["column"];
      assert Get(c.tenants, "column") == Some(Int(1));
      SingleColumnSelection(c, m, d, "column");
    }
    var sql := "table.column = '1'";
    assert Clauses(m, t) == [sql] by {
      WhereClauseExample(m);
    }
    var ws := [NullCheck("foo", And), Raw(sql, And)];
    assert RemoveAll(ws, [sql]) == [NullCheck("foo", And)] by {
      RemoveAllOne(ws, sql);
      assert FirstClause(ws, sql) == 1;
    }
    RemoveRunsClauses(c, m, d, ws);
  }

  /**
   * Two identical user-written clauses plus the engine's one: after `remove`, exactly the
   * two user clauses are left.
   */
  lemma DuplicateUserClausesKept(c: Context, m: Model, d: seq<string>, column: string)
    requires c.enabled && DeclaredColumns(m, d) == [column] && HasTenant(c, column)
    ensures var user := Raw(TenantWhereClause(m, column, Get(c.tenants, column).value), And);
      && Apply(c, m, d, [user, user]) == Ok([user, user, user])
      && Remove(c, m, d, [user, user, user]) == Ok([user, user])
  {
    var t := [(column, Get(c.tenants, column).value)];
    SingleColumnSelection(c, m, d, column);
    var sql := TenantWhereClause(m, column, t[0].1);
    assert Clauses(m, t) == [sql];
    AppendsOne(c, m, d, t, sql);
    RemovesOne(c, m, d, t, sql);
  }

  /** With one selected tenant, `apply` on two copies of its clause appends a third. */
  lemma AppendsOne(c: Context, m: Model, d: seq<string>, t: seq<(string, Value)>, sql: string)
    requires c.enabled && ModelTenants(c, m, d) == Ok(t) && Clauses(m, t) == [sql]
    ensures Apply(c, m, d, [Raw(sql, And), Raw(sql, And)]) == Ok([Raw(sql, And), Raw(sql, And), Raw(sql, And)])
  {
    var user := Raw(sql, And);
    assert TenantWheres(m, t) == [user];
    assert [user, user] + [user] == [user, user, user];
  }

  /** With one selected tenant, `remove` on three copies of its clause takes out one. */
  lemma RemovesOne(c: Context, m: Model, d: seq<string>, t: seq<(string, Value)>, sql: string)
    requires ModelTenants(c, m, d) == Ok(t) && Clauses(m, t) == [sql]
    ensures Remove(c, m, d, [Raw(sql, And), Raw(sql, And), Raw(sql, And)]) == Ok([Raw(sql, And), Raw(sql, And)])
  {
    var user := Raw(sql, And);
    RemoveAllOne([user, user, user], sql);
    assert FirstClause([user, user, user], sql) == 0;
    RemoveRunsClauses(c, m, d, [user, user, user]);
  }

  /** A model whose only declared column has a tenant selects exactly that tenant. */
  lemma SingleColumnSelection(c: Context, m: Model, d: seq<string>, column: string)
    requires DeclaredColumns(m, d) == [column] && HasTenant(c, column)
    ensures ModelTenants(c, m, d) == Ok([(column, Get(c.tenants, column).value)])
  {
    var cols := [column];
    StrictOrder(c, cols);
    var t := StrictModelTenants(c, cols).value;
    assert |Keys(t)| == 1;
    assert t[0] == (column, Get(c.tenants, column).value);
    assert t == [t[0]];
  }

  /** A selection never has more entries than there are declared columns. */
  lemma SelectionBounded(c: Context, m: Model, d: seq<string>, tenants: Arr<Value>)
    requires ModelTenants(c, m, d) == Ok(tenants)
    ensures |tenants| <= |DeclaredColumns(m, d)|
  {
    var cols := DeclaredColumns(m, d);
    var ks := Keys(tenants);
    assert forall i :: 0 <= i < |ks| ==> ks[i] in cols by {
      forall i | 0 <= i < |ks|
        ensures ks[i] in cols
      {
        assert Get(tenants, ks[i]).Some?;
      }
    }
    DistinctIncluded(ks, cols);
  }

  /** A list of distinct strings, all drawn from `ys`, is no longer than `ys`. */
  lemma DistinctIncluded(xs: seq<string>, ys: seq<string>)
    requires Distinct(xs)
    requires forall i :: 0 <= i < |xs| ==> xs[i] in ys
    ensures |xs| <= |ys|
  {
    var sx := set i | 0 <= i < |xs| :: xs[i];
    var sy := set i | 0 <= i < |ys| :: ys[i];
    assert sx <= sy;
    assert |sx| == |xs| by { DistinctCard(xs); }
    assert |sy| <= |ys| by { SetOfSeqCard(ys); }
    SubsetCard(sx, sy);
  }

  lemma SubsetCard(a: set<string>, b: set<string>)
    requires a <= b
    ensures |a| <= |b|
  {
    assert b == a + (b - a);
  }

  lemma {:induction false} DistinctCard(xs: seq<string>)
    requires Distinct(xs)
    ensures |set i | 0 <= i < |xs| :: xs[i]| == |xs|
  {
    if |xs| > 0 {
      var t := xs[1..];
      assert Distinct(t) by {
        forall i, j | 0 <= i < j < |t| ensures t[i] != t[j] {
          assert t[i] == xs[i + 1] && t[j] == xs[j + 1];
        }
      }
      DistinctCard(t);
      var st := set i | 0 <= i < |t| :: t[i];
      var sx := set i | 0 <= i < |xs| :: xs[i];
      assert sx == st + {xs[0]};
      assert xs[0] !in st;
    }
  }

  lemma {:induction false} SetOfSeqCard(ys: seq<string>)
    ensures |set i | 0 <= i < |ys| :: ys[i]| <= |ys|
  {
    if |ys| > 0 {
      var t := ys[1..];
      SetOfSeqCard(t);
      var st := set i | 0 <= i < |t| :: t[i];
      var sy := set i | 0 <= i < |ys| :: ys[i];
      assert sy == st + {ys[0]};
    }
  }
}
