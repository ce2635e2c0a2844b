/** Conditions as objects, filled by ResolveSearchQuery and turned into a query by MakeCondition. */
module SearchObjects {
  import opened Text
  import opened NameText
  import opened SearchModel
  import opened SqlReader
  import opened SearchQuery
  import opened SearchTag
  import opened SearchMeaning

  class GormPublic {
    var wheres: map<string, seq<Value>>
    var order: seq<string>

    constructor ()
      ensures View() == EMPTY_PUBLIC
    {
      wheres, order := map[], [];
    }

    ghost function View(): Public
      reads this
    {
      Public(wheres, order)
    }

    method SetWhere(k: string, v: seq<Value>)
      modifies this
      ensures View() == Public(old(wheres)[k := v], old(order))
    {
      wheres := wheres[k := v];
    }

    method SetOrder(k: string)
      modifies this
      ensures View() == Public(old(wheres), old(order) + [k])
    {
      order := order + [k];
    }
  }

  /** A root condition; a join's condition is a bare GormPublic, on which joins cannot be set. */
  class GormCondition {
    const public: GormPublic
    var joins: seq<JoinCond>

    constructor ()
      ensures joins == [] && public.View() == EMPTY_PUBLIC && fresh(public)
    {
      joins := [];
      public := new GormPublic();
    }

    method AddJoin(kind: Kind, on: string, join: Public)
      modifies this
      ensures joins == old(joins) + [JoinCond(kind, on, join)]
    {
      joins := joins + [JoinCond(kind, on, join)];
    }
  }

  /** The switch over the types of a tagged, non-zero field. */
  method ResolveValue(driver: Driver, t: Tag, v: Value, public: GormPublic)
    modifies public
    ensures public.View() == SetAll(driver, old(public.View()), ValueSettings(driver, t, v))
  {
    var columnRef := ColumnText(driver, t.table, t.column);
    ghost var settings := ValueSettings(driver, t, v);
    ghost var p := public.View();
    assert settings != [] ==> settings[..0] == [] && SetAll(driver, p, settings) == Set(driver, p, settings[0]);
    match t.kind
    case Exact => public.SetWhere(columnRef + " = ?", [v]);
    case Contains =>
      public.SetWhere(columnRef + (if driver.Postgres? then " ILIKE ?" else " LIKE ?"), [Str("%" + StringOf(v) + "%")]);
    case StartsWith =>
      public.SetWhere(columnRef + (if driver.Postgres? then " ILIKE ?" else " LIKE ?"), [Str(StringOf(v) + "%")]);
    case EndsWith =>
      public.SetWhere(columnRef + (if driver.Postgres? then " ILIKE ?" else " LIKE ?"), [Str("%" + StringOf(v))]);
    case Greater => public.SetWhere(columnRef + " > ?", [v]);
    case GreaterEq => public.SetWhere(columnRef + " >= ?", [v]);
    case Less => public.SetWhere(columnRef + " < ?", [v]);
    case LessEq => public.SetWhere(columnRef + " <= ?", [v]);
    case In => public.SetWhere(columnRef + " in (?)", [v]);
    case IsNull => public.SetWhere(columnRef + " is null", []);
    case Order =>
      var orderValue := Lower(StringOf(v));
      if orderValue == "desc" || orderValue == "asc" {
        public.SetOrder(columnRef + " " + orderValue);
      }
    case _ =>
  }

  /** One field of a struct: nested structs go into the same condition, a join into its own. */
  method ResolveField(driver: Driver, f: SourceField, public: GormPublic, root: GormCondition?)
    requires FieldTyped(ParsedField(f), root != null)
    modifies public, root
    ensures public.View() == SetAll(driver, old(public.View()), FieldSettings(driver, ParsedField(f)))
    ensures root != null ==> root.joins == old(root.joins) + JoinsOf(driver, FieldSettings(driver, ParsedField(f)))
    decreases f, 0
  {
    match f {
      case Untagged(inner) => ResolveSearchQuery(driver, inner, public, root);
      case TagText(text, v) =>
        if text == SKIP || IsZeroValue(v) {
          return;
        }
        var t := MakeTag(text);
        ValueSetsNoJoin(driver, t, v);
        ResolveValue(driver, t, v, public);
      case TagTextOnStruct(text, inner) =>
        ParsedIsZero(inner);
        if text == SKIP || SourceIsZero(inner) {
          return;
        }
        var t := MakeTag(text);
        if IsJoin(t) {
          var join := new GormPublic();
          ResolveSearchQuery(driver, inner, join, null);
          root.AddJoin(t.kind, JoinText(driver, t), Public(join.wheres, join.order));
          OneJoin(driver, public.View(), JoinOn(t.kind, JoinText(driver, t), Settings(driver, Parsed(inner))));
        }
    }
  }

  /** Resolves the fields of a struct in order; root is null inside a join. */
  method ResolveSearchQuery(driver: Driver, q: Source, public: GormPublic, root: GormCondition?)
    requires WellTyped(Parsed(q), root != null)
    modifies public, root
    ensures public.View() == SetAll(driver, old(public.View()), Settings(driver, Parsed(q)))
    ensures root != null ==> root.joins == old(root.joins) + JoinsOf(driver, Settings(driver, Parsed(q)))
    decreases q, 1
  {
    match q
    case End =>
    case Then(f, rest) =>
      ghost var before := public.View();
      ghost var joins := if root != null then root.joins else [];
      ResolveField(driver, f, public, root);
      ghost var between := public.View();
      ghost var more := if root != null then root.joins else [];
      ResolveSearchQuery(driver, rest, public, root);
      ThenRest(driver, ParsedField(f), Parsed(rest), before, between, joins, more);
  }

  lemma ThenRest(driver: Driver, f: Field, rest: Struct, before: Public, between: Public,
                 joins: seq<JoinCond>, more: seq<JoinCond>)
    requires between == SetAll(driver, before, FieldSettings(driver, f))
    ensures SetAll(driver, between, Settings(driver, rest))
            == SetAll(driver, before, Settings(driver, Cons(f, rest)))
    ensures more == joins + JoinsOf(driver, FieldSettings(driver, f)) ==>
              more + JoinsOf(driver, Settings(driver, rest))
              == joins + JoinsOf(driver, Settings(driver, Cons(f, rest)))
  {
    SettingsOfCons(driver, before, f, rest);
    Regroup(joins, JoinsOf(driver, FieldSettings(driver, f)), JoinsOf(driver, Settings(driver, rest)));
  }

  // ---------- Applying a condition ----------

  /** The query under construction: joins, where clauses and orders in the order they were added. */
  datatype Query = Query(joins: seq<string>, wheres: seq<(string, seq<Value>)>, orders: seq<string>)

  type Clauses = set<(string, seq<Value>)>

  ghost function Members(entries: seq<(string, seq<Value>)>): Clauses
  {
    set e | e in entries
  }

  ghost function ClausesOf(m: map<string, seq<Value>>): Clauses
  {
    set k | k in m :: (k, m[k])
  }

  /** Adds a map's clauses in whatever order the map yields them. */
  method AddWheres(m: map<string, seq<Value>>) returns (entries: seq<(string, seq<Value>)>)
    ensures Members(entries) == ClausesOf(m)
    ensures |entries| == |m|
  {
    var todo := m.Keys;
    entries := [];
    while todo != {}
      invariant todo <= m.Keys && |entries| + |todo| == |m|
      invariant forall k, v :: (k, v) in entries <==> k in m && k !in todo && m[k] == v
      decreases |todo|
    {
      var k :| k in todo;
      todo := todo - {k};
      entries := entries + [(k, m[k])];
    }
    forall e
      ensures e in Members(entries) <==> e in ClausesOf(m)
    {
      assert e in entries <==> (e.0, e.1) in entries;
    }
  }

  /** The texts of a list of joins, their orders one after the other, and all their clauses. */
  function JoinTexts(joins: seq<JoinCond>): seq<string>
  {
    if |joins| == 0 then [] else JoinTexts(joins[..|joins| - 1]) + [joins[|joins| - 1].on]
  }

  function JoinOrders(joins: seq<JoinCond>): seq<string>
  {
    if |joins| == 0 then [] else JoinOrders(joins[..|joins| - 1]) + joins[|joins| - 1].public.order
  }

  ghost function JoinClauses(joins: seq<JoinCond>): Clauses
  {
    if |joins| == 0 then {}
    else JoinClauses(joins[..|joins| - 1]) + ClausesOf(joins[|joins| - 1].public.wheres)
  }

  ghost predicate PassesClauses(driver: Driver, fold: char -> char, clauses: Clauses, row: Row)
  {
    forall e <- clauses :: Passes(driver, fold, e.0, e.1, row)
  }

  lemma ClausesPass(driver: Driver, fold: char -> char, p: Public, row: Row)
    ensures PassesClauses(driver, fold, ClausesOf(p.wheres), row) <==> PassesAll(driver, fold, p, row)
  {
    if PassesClauses(driver, fold, ClausesOf(p.wheres), row) {
      forall k <- p.wheres
        ensures Passes(driver, fold, k, p.wheres[k], row)
      {
        assert (k, p.wheres[k]) in ClausesOf(p.wheres);
      }
    }
  }

  lemma {:induction false} JoinClausesPass(driver: Driver, fold: char -> char, joins: seq<JoinCond>, row: Row)
    ensures PassesClauses(driver, fold, JoinClauses(joins), row)
            <==> forall j <- joins :: PassesAll(driver, fold, j.public, row)
  {
    if joins != [] {
      var front, last := joins[..|joins| - 1], joins[|joins| - 1];
      JoinClausesPass(driver, fold, front, row);
      ClausesPass(driver, fold, last.public, row);
      assert forall j :: j in joins <==> j in front || j == last;
    }
  }

  /** The clauses of a whole condition, its joins' and its own, let through what the condition selects. */
  lemma AllClausesSelect(driver: Driver, settings: seq<Setting>, clauses: Clauses)
    requires clauses ==
             JoinClauses(JoinsOf(driver, settings)) + ClausesOf(SetAll(driver, EMPTY_PUBLIC, settings).wheres)
    ensures forall fold, row :: PassesClauses(driver, fold, clauses, row) <==> Selects(driver, fold, settings, row)
  {
    var p := SetAll(driver, EMPTY_PUBLIC, settings);
    forall fold, row
      ensures PassesClauses(driver, fold, clauses, row) <==> Selects(driver, fold, settings, row)
    {
      ClausesPass(driver, fold, p, row);
      JoinClausesPass(driver, fold, JoinsOf(driver, settings), row);
    }
  }

  lemma MoreMembers(a: seq<(string, seq<Value>)>, b: seq<(string, seq<Value>)>)
    ensures Members(a + b) == Members(a) + Members(b)
  {
  }

  lemma OneMoreJoin(joins: seq<JoinCond>, i: nat)
    requires i < |joins|
    ensures JoinTexts(joins[..i + 1]) == JoinTexts(joins[..i]) + [joins[i].on]
    ensures JoinOrders(joins[..i + 1]) == JoinOrders(joins[..i]) + joins[i].public.order
    ensures JoinClauses(joins[..i + 1]) == JoinClauses(joins[..i]) + ClausesOf(joins[i].public.wheres)
  {
    assert joins[..i + 1][..i] == joins[..i];
  }

  /** The joins first, each with its clauses and orders. */
  method AddJoins(joins: seq<JoinCond>) returns (db: Query)
    ensures db.joins == JoinTexts(joins) && db.orders == JoinOrders(joins)
    ensures Members(db.wheres) == JoinClauses(joins)
  {
    db := Query([], [], []);
    for i := 0 to |joins|
      invariant db.joins == JoinTexts(joins[..i])
      invariant db.orders == JoinOrders(joins[..i])
      invariant Members(db.wheres) == JoinClauses(joins[..i])
    {
      var entries := AddWheres(joins[i].public.wheres);
      MoreMembers(db.wheres, entries);
      OneMoreJoin(joins, i);
      db := Query(db.joins + [joins[i].on], db.wheres + entries, db.orders + joins[i].public.order);
    }
    assert joins[..|joins|] == joins;
  }

  lemma SearchesSelectMatches(driver: Driver, source: Source)
    requires var q := Parsed(source);
             && WellTyped(q, true) && CleanStruct(driver, q) && StringPatterns(q)
             && AllAgree(Settings(driver, q))
    ensures forall fold, row :: CaseRule(fold) ==>
              (Selects(driver, fold, Settings(driver, Parsed(source)), row) <==> SourceMatches(fold, source, row))
  {
    forall fold, row | CaseRule(fold)
      ensures Selects(driver, fold, Settings(driver, Parsed(source)), row) <==> SourceMatches(fold, source, row)
    {
      SearchSelectsMatches(driver, fold, Parsed(source), row);
      SourceMatchesExactly(fold, source, row);
    }
  }

  lemma {:induction false} JoinTextsAt(joins: seq<JoinCond>, i: nat)
    requires i < |joins|
    ensures |JoinTexts(joins)| == |joins| && JoinTexts(joins)[i] == joins[i].on
  {
    if |joins| > 1 {
      JoinTextsAt(joins[..|joins| - 1], if i < |joins| - 1 then i else i - 1);
    }
  }

  lemma {:induction false} JoinOrdersAreFields(driver: Driver, fields: seq<(string, Source)>)
    ensures JoinOrders(JoinsFor(driver, fields)) == OrderTexts(driver, JoinedOrderFields(fields))
  {
    if fields != [] {
      var n := |fields| - 1;
      JoinOrdersAreFields(driver, fields[..n]);
      OrdersAreFields(driver, fields[n].1);
      assert JoinsFor(driver, fields)[..n] == JoinsFor(driver, fields[..n]);
      OrderTextsConcat(driver, JoinedOrderFields(fields[..n]), OrderFields(fields[n].1));
    }
  }

  /** The joins of a query are those of the struct's join fields, in field order. */
  ghost predicate JoinsReadAs(driver: Driver, joins: seq<string>, fields: seq<(string, Source)>)
  {
    |joins| == |fields| && forall i :: 0 <= i < |joins| ==> ReadsAsJoin(driver, joins[i], fields[i].0)
  }

  lemma JoinTextsRead(driver: Driver, fields: seq<(string, Source)>)
    requires forall field <- fields :: CleanJoinTag(driver, ReadTag(Entries(field.0)))
    ensures JoinsReadAs(driver, JoinTexts(JoinsFor(driver, fields)), fields)
  {
    var joins := JoinsFor(driver, fields);
    forall i | 0 <= i < |fields|
      ensures |JoinTexts(joins)| == |joins| && ReadsAsJoin(driver, JoinTexts(joins)[i], fields[i].0)
    {
      assert fields[i] in fields;
      JoinTextsAt(joins, i);
      JoinReads(driver, fields[i]);
    }
  }

  /** The orders of a query: those of its joins, and its own. */
  ghost function AllOrderFields(source: Source): seq<(string, bool)>
  {
    JoinedOrderFields(JoinFields(source)) + OrderFields(source)
  }

  lemma QueryReads(driver: Driver, source: Source)
    requires WellTyped(Parsed(source), true)
    requires CleanJoins(driver, source) && forall order <- AllOrderFields(source) :: CleanOrder(driver, order)
    ensures var settings := Settings(driver, Parsed(source));
            var joins := JoinsOf(driver, settings);
            && JoinsReadAs(driver, JoinTexts(joins), JoinFields(source))
            && AllReadAsOrders(driver, JoinOrders(joins) + OrdersOf(driver, settings), AllOrderFields(source))
  {
    JoinsAreFields(driver, source);
    JoinTextsRead(driver, JoinFields(source));
    JoinOrdersAreFields(driver, JoinFields(source));
    OrdersAreFields(driver, source);
    OrderTextsConcat(driver, JoinedOrderFields(JoinFields(source)), OrderFields(source));
    OrdersRead(driver, AllOrderFields(source));
  }

  /**
   MakeCondition: the clauses, read as the database reads them, let through what the condition selects
   and what the tags ask; joins and orders read as their tags say, in field order.
   */
  method MakeCondition(source: Source, driver: Driver) returns (db: Query)
    requires WellTyped(Parsed(source), true)
    ensures db.joins == JoinTexts(JoinsOf(driver, Settings(driver, Parsed(source))))
    ensures db.orders == JoinOrders(JoinsOf(driver, Settings(driver, Parsed(source))))
                         + OrdersOf(driver, Settings(driver, Parsed(source)))
    ensures forall fold, row ::
              PassesClauses(driver, fold, Members(db.wheres), row)
              <==> Selects(driver, fold, Settings(driver, Parsed(source)), row)
    ensures CleanStruct(driver, Parsed(source)) && StringPatterns(Parsed(source))
            && AllAgree(Settings(driver, Parsed(source))) ==>
              forall fold, row :: CaseRule(fold) ==>
                (PassesClauses(driver, fold, Members(db.wheres), row) <==> SourceMatches(fold, source, row))
    ensures CleanJoins(driver, source) && (forall order <- AllOrderFields(source) :: CleanOrder(driver, order)) ==>
              && JoinsReadAs(driver, db.joins, JoinFields(source))
              && AllReadAsOrders(driver, db.orders, AllOrderFields(source))
  {
    var condition := new GormCondition();
    ResolveSearchQuery(driver, source, condition.public, condition);
    ghost var q := Parsed(source);
    ghost var settings := Settings(driver, q);
    var joins, wheres, order := condition.joins, condition.public.wheres, condition.public.order;
    assert Public(wheres, order) == SetAll(driver, EMPTY_PUBLIC, settings);
    assert joins == JoinsOf(driver, settings);
    db := AddJoins(joins);
    var entries := AddWheres(wheres);
    MoreMembers(db.wheres, entries);
    AllClausesSelect(driver, settings, Members(db.wheres + entries));
    db := Query(db.joins, db.wheres + entries, db.orders + order);
    if CleanStruct(driver, q) && StringPatterns(q) && AllAgree(settings) {
      SearchesSelectMatches(driver, source);
    }
    if CleanJoins(driver, source) && forall order <- AllOrderFields(source) :: CleanOrder(driver, order) {
      QueryReads(driver, source);
    }
  }
}
