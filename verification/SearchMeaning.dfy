/**
 What a struct with search tags asks of a row, from the texts of its tags: by the documented name of
 a field's type, and by the last entry of the tag under each key.
 */
module SearchMeaning {
  import opened Wrappers
  import opened Text
  import opened NameText
  import opened LikePatterns
  import opened SearchModel
  import opened SqlReader
  import opened SearchQuery
  import opened SearchTag

  // ---------- Reading a tag ----------

  /** One part of a tag between semicolons: a key and at least one value, between colons. */
  predicate HasKey(part: string, key: string)
  {
    var pieces := Split(part, ':');
    |pieces| > 1 && pieces[0] == key
  }

  /** The values that the last part with a key has; there are none without such a part. */
  ghost predicate SaysAll(text: string, key: string, values: seq<string>)
  {
    var parts := Split(text, ';');
    if exists part <- parts :: HasKey(part, key) then
      exists i :: 0 <= i < |parts| && HasKey(parts[i], key) && values == Split(parts[i], ':')[1..]
                  && forall j :: i < j < |parts| ==> !HasKey(parts[j], key)
    else values == []
  }

  ghost predicate Says(text: string, key: string, value: string)
  {
    exists values :: SaysAll(text, key, values) && value == if values == [] then "" else values[0]
  }

  lemma LastPart(parts: seq<string>, key: string) returns (i: nat)
    requires exists part <- parts :: HasKey(part, key)
    ensures i < |parts| && HasKey(parts[i], key) && forall j :: i < j < |parts| ==> !HasKey(parts[j], key)
  {
    var n := |parts| - 1;
    if HasKey(parts[n], key) {
      i := n;
    } else {
      assert parts == parts[..n] + [parts[n]];
      i := LastPart(parts[..n], key);
    }
  }

  lemma SaysAllExactly(text: string, key: string, values: seq<string>)
    ensures SaysAll(text, key, values) <==> values == LastValues(Entries(text), key)
  {
    var parts, entries := Split(text, ';'), Entries(text);
    if exists part <- parts :: HasKey(part, key) {
      var i := LastPart(parts, key);
      assert entries[i] == Split(parts[i], ':');
      forall j | i < j < |entries|
        ensures !Gives(entries[j], key)
      {
        assert !HasKey(parts[j], key);
      }
      LastEntryDecides(entries, key, i);
      if SaysAll(text, key, values) {
        var k :| 0 <= k < |parts| && HasKey(parts[k], key) && values == Split(parts[k], ':')[1..]
                 && forall j :: k < j < |parts| ==> !HasKey(parts[j], key);
        assert k == i;
      }
    } else {
      NoEntryNoValues(entries, key);
      forall e <- entries
        ensures !Gives(e, key)
      {
        var i :| 0 <= i < |entries| && entries[i] == e;
        assert parts[i] in parts && !HasKey(parts[i], key);
      }
    }
  }

  lemma SaysExactly(text: string, key: string, value: string)
    ensures Says(text, key, value) <==> value == FirstOf(LastValues(Entries(text), key))
  {
    SaysAllExactly(text, key, LastValues(Entries(text), key));
    forall values | SaysAll(text, key, values)
      ensures values == LastValues(Entries(text), key)
    {
      SaysAllExactly(text, key, values);
    }
  }

  // ---------- What a name asks ----------

  /** A field of the named type on a column, with a value that is not zero. */
  ghost predicate NameAsks(
      fold: char -> char, name: string, v: Value, cell: Option<Value>)
  {
    if name == "exact" || name == "iexact" then cell == Some(v)
    else if name == "contains" || name == "icontains" then
      Texts(cell, v) && exists i :: 0 <= i <= |cell.value.s| && Folded(fold, v.s) <= Folded(fold, cell.value.s)[i..]
    else if name == "startswith" || name == "istartswith" then
      Texts(cell, v) && Folded(fold, v.s) <= Folded(fold, cell.value.s)
    else if name == "endswith" || name == "iendswith" then
      && Texts(cell, v) && |v.s| <= |cell.value.s|
      && Folded(fold, v.s) == Folded(fold, cell.value.s)[|cell.value.s| - |v.s|..]
    else if name == "gt" then cell.Some? && ValueLess(v, cell.value)
    else if name == "gte" then cell.Some? && (ValueLess(v, cell.value) || cell.value == v)
    else if name == "lt" then cell.Some? && ValueLess(cell.value, v)
    else if name == "lte" then cell.Some? && (ValueLess(cell.value, v) || cell.value == v)
    else if name == "in" then cell.Some? && if v.List? then cell.value in v.elems else cell.value == v
    else if name == "isnull" then cell == None
    else true
  }

  /** The zero value of its type. */
  predicate Unset(v: Value)
  {
    match v
    case Str(s) => s == ""
    case Num(n) => n == 0
    case Stamp(at) => at == 0
    case List(_) => false
    case NilList => true
  }

  predicate AllUnset(q: Source)
  {
    match q
    case End => true
    case Then(f, rest) => FieldUnset(f) && AllUnset(rest)
  }

  predicate FieldUnset(f: SourceField)
  {
    match f
    case Untagged(inner) => AllUnset(inner)
    case TagText(_, v) => Unset(v)
    case TagTextOnStruct(_, inner) => AllUnset(inner)
  }

  /** A row satisfies every field that is set, those of nested and joined structs included. */
  ghost predicate SourceMatches(fold: char -> char, q: Source, row: Row)
  {
    match q
    case End => true
    case Then(f, rest) => SourceFieldMatches(fold, f, row) && SourceMatches(fold, rest, row)
  }

  ghost predicate SourceFieldMatches(fold: char -> char, f: SourceField, row: Row)
  {
    match f
    case Untagged(inner) => SourceMatches(fold, inner, row)
    case TagText(text, v) => text == "-" || Unset(v) || TextAsks(fold, text, v, row)
    case TagTextOnStruct(text, inner) =>
      || text == "-" || AllUnset(inner) || !(Says(text, "type", "left") || Says(text, "type", "inner"))
      || SourceMatches(fold, inner, row)
  }

  /** What a tag's text asks of a row: of its column of its table, by its type. */
  ghost predicate TextAsks(fold: char -> char, text: string, v: Value, row: Row)
  {
    exists name, table, column ::
      && Says(text, "type", name) && Says(text, "table", table) && Says(text, "column", column)
      && NameAsks(fold, name, v, Cell(row, table, column))
  }

  // ---------- It is what the search means ----------

  lemma PatternNameAsks(fold: char -> char, name: string, t: Tag, v: Value, row: Row)
    requires t.kind == KindOf(name) && IsPattern(t)
    ensures NameAsks(fold, name, v, Cell(row, t.table, t.column)) <==> Wants(fold, t, v, row)
  {
  }

  lemma ComparingNameAsks(fold: char -> char, name: string, t: Tag, v: Value, row: Row)
    requires t.kind == KindOf(name) && (t.kind.Greater? || t.kind.GreaterEq? || t.kind.Less? || t.kind.LessEq?)
    ensures NameAsks(fold, name, v, Cell(row, t.table, t.column)) <==> Wants(fold, t, v, row)
  {
  }

  lemma OtherNameAsks(fold: char -> char, name: string, t: Tag, v: Value, row: Row)
    requires t.kind == KindOf(name) && !IsPattern(t)
    requires !t.kind.Greater? && !t.kind.GreaterEq? && !t.kind.Less? && !t.kind.LessEq?
    ensures NameAsks(fold, name, v, Cell(row, t.table, t.column)) <==> Wants(fold, t, v, row)
  {
  }

  /** A documented name asks of a column what its kind does. */
  lemma NameAsksExactly(fold: char -> char, name: string, table: string, column: string,
                        on: seq<string>, join: string, v: Value, row: Row)
    ensures NameAsks(fold, name, v, Cell(row, table, column))
            <==> Wants(fold, Tag(KindOf(name), column, table, on, join), v, row)
  {
    var t := Tag(KindOf(name), column, table, on, join);
    if IsPattern(t) {
      PatternNameAsks(fold, name, t, v, row);
    } else if t.kind.Greater? || t.kind.GreaterEq? || t.kind.Less? || t.kind.LessEq? {
      ComparingNameAsks(fold, name, t, v, row);
    } else {
      OtherNameAsks(fold, name, t, v, row);
    }
  }

  lemma TextAsksExactly(fold: char -> char, text: string, v: Value, row: Row)
    ensures TextAsks(fold, text, v, row) <==> Wants(fold, ReadTag(Entries(text)), v, row)
  {
    var entries := Entries(text);
    var name, table, column := FirstOf(LastValues(entries, "type")), FirstOf(LastValues(entries, "table")),
                               FirstOf(LastValues(entries, "column"));
    SaysExactly(text, "type", name);
    SaysExactly(text, "table", table);
    SaysExactly(text, "column", column);
    var on, join := LastValues(entries, "on"), FirstOf(LastValues(entries, "join"));
    NameAsksExactly(fold, name, table, column, on, join, v, row);
    if TextAsks(fold, text, v, row) {
      var n, t, c :| Says(text, "type", n) && Says(text, "table", t) && Says(text, "column", c)
                     && NameAsks(fold, n, v, Cell(row, t, c));
      SaysExactly(text, "type", n);
      SaysExactly(text, "table", t);
      SaysExactly(text, "column", c);
    }
  }

  lemma {:induction false} AllUnsetExactly(q: Source)
    ensures AllUnset(q) <==> SourceIsZero(q)
  {
    match q
    case End =>
    case Then(Untagged(inner), rest) =>
      AllUnsetExactly(inner);
      AllUnsetExactly(rest);
    case Then(TagText(_, _), rest) => AllUnsetExactly(rest);
    case Then(TagTextOnStruct(_, inner), rest) =>
      AllUnsetExactly(inner);
      AllUnsetExactly(rest);
  }

  lemma JoinNames(name: string)
    ensures (KindOf(name).LeftJoin? <==> name == "left") && (KindOf(name).InnerJoin? <==> name == "inner")
    ensures KindOf(name).Order? <==> name == "order"
  {
  }

  lemma TypeExactly(text: string)
    ensures var kind := ReadTag(Entries(text)).kind;
            && (kind.LeftJoin? <==> Says(text, "type", "left")) && (kind.InnerJoin? <==> Says(text, "type", "inner"))
            && (kind.Order? <==> Says(text, "type", "order"))
  {
    var name := FirstOf(LastValues(Entries(text), "type"));
    JoinNames(name);
    SaysExactly(text, "type", "left");
    SaysExactly(text, "type", "inner");
    SaysExactly(text, "type", "order");
  }

  /** From tag texts to rows, the search means what the documentation of its tags says. */
  lemma {:induction false} SourceMatchesExactly(fold: char -> char, q: Source, row: Row)
    ensures SourceMatches(fold, q, row) <==> Matches(fold, Parsed(q), row)
    decreases q, 1
  {
    if q.Then? {
      SourceMatchesExactly(fold, q.rest, row);
      SourceFieldExactly(fold, q.field, row);
    }
  }

  lemma {:induction false} SourceFieldExactly(fold: char -> char, f: SourceField, row: Row)
    ensures SourceFieldMatches(fold, f, row) <==> FieldMatches(fold, ParsedField(f), row)
    decreases f, 0
  {
    match f
    case Untagged(inner) => SourceMatchesExactly(fold, inner, row);
    case TagText(text, v) => TextAsksExactly(fold, text, v, row);
    case TagTextOnStruct(text, inner) =>
      SourceMatchesExactly(fold, inner, row);
      AllUnsetExactly(inner);
      ParsedIsZero(inner);
      TypeExactly(text);
  }

  // ---------- Joins and orders ----------

  /** The joins of a struct in field order: the texts of their tags, and what is joined. */
  ghost function JoinFields(q: Source): seq<(string, Source)>
  {
    match q
    case End => []
    case Then(f, rest) => JoinsOfField(f) + JoinFields(rest)
  }

  ghost function JoinsOfField(f: SourceField): seq<(string, Source)>
  {
    match f
    case Untagged(inner) => JoinFields(inner)
    case TagText(_, _) => []
    case TagTextOnStruct(text, inner) =>
      if text != "-" && !AllUnset(inner) && (Says(text, "type", "left") || Says(text, "type", "inner"))
      then [(text, inner)] else []
  }

  /** The order fields of one condition in field order: the texts of their tags, and whether descending. */
  ghost function OrderFields(q: Source): seq<(string, bool)>
  {
    match q
    case End => []
    case Then(f, rest) => OrdersOfField(f) + OrderFields(rest)
  }

  ghost function OrdersOfField(f: SourceField): seq<(string, bool)>
  {
    match f
    case Untagged(inner) => OrderFields(inner)
    case TagText(text, v) =>
      if text != "-" && !Unset(v) && Says(text, "type", "order") && Directs(v)
      then [(text, Lower(v.s) == "desc")] else []
    case TagTextOnStruct(_, _) => []
  }

  predicate Directs(v: Value)
  {
    v.Str? && (Lower(v.s) == "asc" || Lower(v.s) == "desc")
  }

  /** Those of all joins, one after the other. */
  ghost function JoinedOrderFields(joins: seq<(string, Source)>): seq<(string, bool)>
  {
    if joins == [] then []
    else JoinedOrderFields(joins[..|joins| - 1]) + OrderFields(joins[|joins| - 1].1)
  }

  function SqlQuote(driver: Driver): char
  {
    if driver == Postgres then '"' else '`'
  }

  /** The text of a join, as the database reads it: its kind, its table and the two columns compared. */
  ghost predicate ReadsAsJoin(driver: Driver, sql: string, text: string)
  {
    exists join, table, on ::
      && Says(text, "join", join) && Says(text, "table", table) && SaysAll(text, "on", on) && |on| >= 2
      && Split(sql, SqlQuote(driver)) ==
         [if Says(text, "type", "left") then "LEFT JOIN " else "INNER JOIN ",
          join, " ON ", join, ".", on[0], " = ", table, ".", on[1], ""]
  }

  ghost predicate ReadsAsOrder(driver: Driver, sql: string, order: (string, bool))
  {
    exists table, column ::
      && Says(order.0, "table", table) && Says(order.0, "column", column)
      && Split(sql, SqlQuote(driver)) == ["", table, ".", column, if order.1 then " desc" else " asc"]
  }

  ghost predicate AllReadAsOrders(driver: Driver, sqls: seq<string>, orders: seq<(string, bool)>)
  {
    |sqls| == |orders| && forall i :: 0 <= i < |sqls| ==> ReadsAsOrder(driver, sqls[i], orders[i])
  }

  /** Names in a join's tag without the quote character. */
  ghost predicate CleanJoinTag(driver: Driver, t: Tag)
  {
    && CleanName(driver, t.join) && CleanName(driver, t.table) && |t.on| >= 2
    && CleanName(driver, t.on[0]) && CleanName(driver, t.on[1])
  }

  ghost predicate CleanJoins(driver: Driver, q: Source)
  {
    forall j <- JoinFields(q) :: CleanJoinTag(driver, ReadTag(Entries(j.0)))
  }

  // ---------- What is compiled reads so ----------

  lemma {:induction false} JoinMeets(xs: seq<string>, x: string, ys: seq<string>, sep: string)
    ensures Join(xs + [""], sep) + Join([x] + ys, sep) == Join(xs + [x] + ys, sep)
  {
    if xs == [] {
      assert [] + [""] == [""] && [] + [x] + ys == [x] + ys;
    } else {
      JoinMeets(xs[1..], x, ys, sep);
      assert (xs + [""])[1..] == xs[1..] + [""] && (xs + [x] + ys)[1..] == xs[1..] + [x] + ys;
      Regroup(xs[0] + sep, Join(xs[1..] + [""], sep), Join([x] + ys, sep));
    }
  }

  lemma JoinPrefix(x: string, ys: seq<string>, sep: string)
    requires ys != []
    ensures x + Join([""] + ys, sep) == Join([x] + ys, sep) == x + sep + Join(ys, sep)
  {
    assert ([""] + ys)[1..] == ys && ([x] + ys)[1..] == ys;
    Regroup(x, sep, Join(ys, sep));
  }

  /** Two columns compared: the pieces around the equals sign become one. */
  lemma ComparedParts(join: string, on0: string, table: string, on1: string, q: string)
    ensures " ON " + (Join(["", join, ".", on0, ""], q) + (" = " + Join(["", table, ".", on1, ""], q)))
            == Join([" ON ", join, ".", on0, " = ", table, ".", on1, ""], q)
  {
    var left, right := [join, ".", on0], [table, ".", on1, ""];
    JoinPrefix(" = ", right, q);
    JoinMeets([""] + left, " = ", right, q);
    assert [""] + left + [""] == ["", join, ".", on0, ""] && [""] + right == ["", table, ".", on1, ""];
    assert [""] + left + [" = "] + right == [""] + (left + [" = "] + right);
    JoinPrefix(" ON ", left + [" = "] + right, q);
    assert [" ON "] + (left + [" = "] + right) == [" ON ", join, ".", on0, " = ", table, ".", on1, ""];
  }

  lemma JoinCons(x: string, ys: seq<string>, sep: string)
    requires ys != []
    ensures x + sep + Join(ys, sep) == Join([x] + ys, sep)
  {
    assert ([x] + ys)[1..] == ys;
  }

  function JoinParts(driver: Driver, t: Tag): seq<string>
    requires |t.on| >= 2
  {
    [if t.kind.LeftJoin? then "LEFT JOIN " else "INNER JOIN ",
     t.join, " ON ", t.join, ".", t.on[0], " = ", t.table, ".", t.on[1], ""]
  }

  /** A list with two more pieces in front. */
  lemma JoinTwoMore(x: string, y: string, ys: seq<string>, sep: string)
    requires ys != []
    ensures x + sep + (y + sep + Join(ys, sep)) == Join([x, y] + ys, sep)
  {
    JoinCons(y, ys, sep);
    JoinCons(x, [y] + ys, sep);
    assert [x] + ([y] + ys) == [x, y] + ys;
  }

  lemma JoinTextIsJoined(driver: Driver, t: Tag)
    requires |t.on| >= 2
    ensures JoinText(driver, t) == Join(JoinParts(driver, t), [Quote(driver)])
  {
    var q, head := [Quote(driver)], if t.kind.LeftJoin? then "LEFT JOIN " else "INNER JOIN ";
    var tail := [" ON ", t.join, ".", t.on[0], " = ", t.table, ".", t.on[1], ""];
    ComparedParts(t.join, t.on[0], t.table, t.on[1], q);
    JoinTextGroups(driver, t, Join(tail, q));
    JoinTwoMore(head, t.join, tail, q);
    assert [head, t.join] + tail == JoinParts(driver, t);
  }

  lemma JoinTextGroups(driver: Driver, t: Tag, tail: string)
    requires |t.on| >= 2
    requires var q := [Quote(driver)];
             tail ==
             " ON " + (Join(["", t.join, ".", t.on[0], ""], q) + (" = " + Join(["", t.table, ".", t.on[1], ""], q)))
    ensures var q := [Quote(driver)];
            JoinText(driver, t) ==
            (if t.kind.LeftJoin? then "LEFT JOIN " else "INNER JOIN ") + q + (t.join + q + tail)
  {
  }

  /** A join's text taken apart at the quotes. */
  lemma JoinTextParts(driver: Driver, t: Tag)
    requires CleanJoinTag(driver, t)
    ensures Split(JoinText(driver, t), Quote(driver)) == JoinParts(driver, t)
  {
    JoinTextIsJoined(driver, t);
    forall p <- JoinParts(driver, t)
      ensures Free(p, Quote(driver))
    {
    }
    SplitJoin(JoinParts(driver, t), Quote(driver));
  }

  lemma {:induction false} OrdersAreAppended(driver: Driver, p: Public, settings: seq<Setting>)
    ensures SetAll(driver, p, settings).order == p.order + SetAll(driver, EMPTY_PUBLIC, settings).order
  {
    if settings == [] {
      assert p.order + [] == p.order;
    } else {
      var n := |settings| - 1;
      OrdersAreAppended(driver, p, settings[..n]);
      if settings[n].OrderBy? {
        Regroup(p.order, SetAll(driver, EMPTY_PUBLIC, settings[..n]).order, [settings[n].text]);
      }
    }
  }

  /** The orders of one condition. */
  function OrdersOf(driver: Driver, settings: seq<Setting>): seq<string>
  {
    SetAll(driver, EMPTY_PUBLIC, settings).order
  }

  lemma OrdersOfConcat(driver: Driver, a: seq<Setting>, b: seq<Setting>)
    ensures OrdersOf(driver, a + b) == OrdersOf(driver, a) + OrdersOf(driver, b)
  {
    SetAllConcat(driver, EMPTY_PUBLIC, a, b);
    OrdersAreAppended(driver, SetAll(driver, EMPTY_PUBLIC, a), b);
  }

  lemma OrderTextParts(driver: Driver, table: string, column: string, direction: string)
    requires CleanName(driver, table) && CleanName(driver, column) && Free(direction, Quote(driver))
    ensures Split(ColumnText(driver, table, column) + direction, Quote(driver)) == ["", table, ".", column, direction]
  {
    var parts := ["", table, ".", column];
    JoinThen(parts, [Quote(driver)], direction);
    assert parts + [""] == ["", table, ".", column, ""];
    SplitJoin(parts + [direction], Quote(driver));
    assert parts + [direction] == ["", table, ".", column, direction];
  }

  lemma OneSetting(driver: Driver, s: Setting)
    ensures OrdersOf(driver, [s]) == if s.OrderBy? then [s.text] else []
  {
    var settings := [s];
    assert settings[..|settings| - 1] == [] && settings[|settings| - 1] == s;
    assert SetAll(driver, EMPTY_PUBLIC, settings) == Set(driver, EMPTY_PUBLIC, s);
  }

  lemma OneSettingAtMost(driver: Driver, t: Tag, v: Value)
    ensures var settings := ValueSettings(driver, t, v);
            && |settings| <= 1
            && forall s <- settings :: s.OrderBy? ==>
                 t.kind.Order? && Directs(v) && s.text == ColumnText(driver, t.table, t.column) + " " + Lower(v.s)
    ensures t.kind.Order? && Directs(v) ==>
              ValueSettings(driver, t, v) == [OrderBy(ColumnText(driver, t.table, t.column) + " " + Lower(v.s))]
  {
    assert |Lower(StringOf(v))| == |StringOf(v)|;
    assert !v.Str? ==> |StringOf(v)| > 4;
  }

  lemma OrderSettings(driver: Driver, t: Tag, v: Value)
    ensures OrdersOf(driver, ValueSettings(driver, t, v)) ==
            if t.kind.Order? && Directs(v)
            then [ColumnText(driver, t.table, t.column) + " " + Lower(v.s)] else []
  {
    var settings := ValueSettings(driver, t, v);
    OneSettingAtMost(driver, t, v);
    if |settings| == 1 {
      OneSetting(driver, settings[0]);
      assert settings == [settings[0]] && settings[0] in settings;
    }
  }

  /** The text compiled for an order field. */
  function OrderText(driver: Driver, order: (string, bool)): string
  {
    var t := ReadTag(Entries(order.0));
    ColumnText(driver, t.table, t.column) + " " + if order.1 then "desc" else "asc"
  }

  function OrderTexts(driver: Driver, orders: seq<(string, bool)>): seq<string>
  {
    seq(|orders|, i requires 0 <= i < |orders| => OrderText(driver, orders[i]))
  }

  lemma OrderTextsConcat(driver: Driver, a: seq<(string, bool)>, b: seq<(string, bool)>)
    ensures OrderTexts(driver, a + b) == OrderTexts(driver, a) + OrderTexts(driver, b)
  {
    forall i | 0 <= i < |a + b|
      ensures OrderTexts(driver, a + b)[i] == (OrderTexts(driver, a) + OrderTexts(driver, b))[i]
    {
      assert (a + b)[i] == if i < |a| then a[i] else b[i - |a|];
    }
  }

  lemma ValueOrders(driver: Driver, text: string, v: Value)
    ensures OrdersOf(driver, FieldSettings(driver, ParsedField(TagText(text, v)))) ==
            OrderTexts(driver, OrdersOfField(TagText(text, v)))
  {
    if text != "-" && !Unset(v) {
      OrderSettings(driver, ReadTag(Entries(text)), v);
      TypeExactly(text);
      assert FieldSettings(driver, ParsedField(TagText(text, v))) == ValueSettings(driver, ReadTag(Entries(text)), v);
    }
  }

  lemma JoinsOrderNothing(driver: Driver, f: SourceField)
    requires f.TagTextOnStruct?
    ensures OrdersOf(driver, FieldSettings(driver, ParsedField(f))) == []
  {
    var settings := FieldSettings(driver, ParsedField(f));
    if settings != [] {
      OneSetting(driver, settings[0]);
    }
  }

  /** The orders of a condition are those of its order fields, in field order. */
  lemma {:induction false} OrdersAreFields(driver: Driver, q: Source)
    ensures OrdersOf(driver, Settings(driver, Parsed(q))) == OrderTexts(driver, OrderFields(q))
    decreases q, 1
  {
    if q.Then? {
      var f, rest := q.field, q.rest;
      OrdersAreFields(driver, rest);
      OrdersOfFieldAre(driver, f);
      OrdersOfConcat(driver, FieldSettings(driver, ParsedField(f)), Settings(driver, Parsed(rest)));
      OrderTextsConcat(driver, OrdersOfField(f), OrderFields(rest));
    }
  }

  lemma {:induction false} OrdersOfFieldAre(driver: Driver, f: SourceField)
    ensures OrdersOf(driver, FieldSettings(driver, ParsedField(f))) == OrderTexts(driver, OrdersOfField(f))
    decreases f, 0
  {
    match f
    case Untagged(inner) => OrdersAreFields(driver, inner);
    case TagText(text, v) => ValueOrders(driver, text, v);
    case TagTextOnStruct(_, _) => JoinsOrderNothing(driver, f);
  }

  /** The join compiled for a join field. */
  function JoinFor(driver: Driver, field: (string, Source)): JoinCond
  {
    var t := ReadTag(Entries(field.0));
    JoinCond(t.kind, if |t.on| < 2 then "" else JoinText(driver, t),
             SetAll(driver, EMPTY_PUBLIC, Settings(driver, Parsed(field.1))))
  }

  function JoinsFor(driver: Driver, fields: seq<(string, Source)>): seq<JoinCond>
  {
    seq(|fields|, i requires 0 <= i < |fields| => JoinFor(driver, fields[i]))
  }

  lemma JoinsForConcat(driver: Driver, a: seq<(string, Source)>, b: seq<(string, Source)>)
    ensures JoinsFor(driver, a + b) == JoinsFor(driver, a) + JoinsFor(driver, b)
  {
    forall i | 0 <= i < |a + b|
      ensures JoinsFor(driver, a + b)[i] == (JoinsFor(driver, a) + JoinsFor(driver, b))[i]
    {
      assert (a + b)[i] == if i < |a| then a[i] else b[i - |a|];
    }
  }

  /** Whether a struct under a tag is joined. */
  ghost predicate Joins(text: string, inner: Source)
  {
    text != "-" && !AllUnset(inner) && (Says(text, "type", "left") || Says(text, "type", "inner"))
  }

  lemma JoinsExactly(text: string, inner: Source)
    ensures Joins(text, inner) <==>
              var f := ParsedField(TagTextOnStruct(text, inner));
              f.Joined? && !IsZero(f.inner) && IsJoin(f.tag)
    ensures JoinsOfField(TagTextOnStruct(text, inner)) == if Joins(text, inner) then [(text, inner)] else []
  {
    AllUnsetExactly(inner);
    ParsedIsZero(inner);
    TypeExactly(text);
  }

  lemma StructJoin(driver: Driver, text: string, inner: Source)
    requires FieldTyped(ParsedField(TagTextOnStruct(text, inner)), true)
    ensures JoinsOf(driver, FieldSettings(driver, ParsedField(TagTextOnStruct(text, inner)))) ==
            JoinsFor(driver, JoinsOfField(TagTextOnStruct(text, inner)))
  {
    JoinsExactly(text, inner);
    if Joins(text, inner) {
      var t := ReadTag(Entries(text));
      OneJoin(driver, EMPTY_PUBLIC, JoinOn(t.kind, JoinText(driver, t), Settings(driver, Parsed(inner))));
    }
  }

  /** The joins of a condition are those of its join fields, in field order. */
  lemma {:induction false} JoinsAreFields(driver: Driver, q: Source)
    requires WellTyped(Parsed(q), true)
    ensures JoinsOf(driver, Settings(driver, Parsed(q))) == JoinsFor(driver, JoinFields(q))
    decreases q, 1
  {
    if q.Then? {
      var f, rest := q.field, q.rest;
      JoinsAreFields(driver, rest);
      JoinsOfFieldAre(driver, f);
      SettingsOfCons(driver, EMPTY_PUBLIC, ParsedField(f), Parsed(rest));
      JoinsForConcat(driver, JoinsOfField(f), JoinFields(rest));
    }
  }

  lemma {:induction false} JoinsOfFieldAre(driver: Driver, f: SourceField)
    requires FieldTyped(ParsedField(f), true)
    ensures JoinsOf(driver, FieldSettings(driver, ParsedField(f))) == JoinsFor(driver, JoinsOfField(f))
    decreases f, 0
  {
    match f
    case Untagged(inner) => JoinsAreFields(driver, inner);
    case TagText(text, v) =>
      if text != "-" {
        ValueSetsNoJoin(driver, ReadTag(Entries(text)), v);
      }
    case TagTextOnStruct(text, inner) => StructJoin(driver, text, inner);
  }

  // ---------- The texts read as the tags say ----------

  lemma DirectionText(driver: Driver, column: string, desc: bool)
    ensures column + " " + (if desc then "desc" else "asc") == column + if desc then " desc" else " asc"
    ensures Free(if desc then " desc" else " asc", Quote(driver))
  {
    Regroup(column, " ", if desc then "desc" else "asc");
    assert " " + "desc" == " desc" && " " + "asc" == " asc";
  }

  lemma OrderReads(driver: Driver, order: (string, bool))
    requires CleanOrder(driver, order)
    ensures ReadsAsOrder(driver, OrderText(driver, order), order)
  {
    var t := ReadTag(Entries(order.0));
    var direction := if order.1 then " desc" else " asc";
    DirectionText(driver, ColumnText(driver, t.table, t.column), order.1);
    OrderTextParts(driver, t.table, t.column, direction);
    SaysExactly(order.0, "table", t.table);
    SaysExactly(order.0, "column", t.column);
  }

  ghost predicate CleanOrder(driver: Driver, order: (string, bool))
  {
    var t := ReadTag(Entries(order.0));
    CleanName(driver, t.table) && CleanName(driver, t.column)
  }

  lemma OrdersRead(driver: Driver, orders: seq<(string, bool)>)
    requires forall order <- orders :: CleanOrder(driver, order)
    ensures AllReadAsOrders(driver, OrderTexts(driver, orders), orders)
  {
    forall i | 0 <= i < |orders|
      ensures ReadsAsOrder(driver, OrderTexts(driver, orders)[i], orders[i])
    {
      assert orders[i] in orders;
      OrderReads(driver, orders[i]);
    }
  }

  lemma JoinReads(driver: Driver, field: (string, Source))
    requires CleanJoinTag(driver, ReadTag(Entries(field.0)))
    ensures ReadsAsJoin(driver, JoinFor(driver, field).on, field.0)
  {
    var t := ReadTag(Entries(field.0));
    JoinTextParts(driver, t);
    TypeExactly(field.0);
    SaysExactly(field.0, "join", t.join);
    SaysExactly(field.0, "table", t.table);
    SaysAllExactly(field.0, "on", t.on);
  }
}
