/** The condition compiled from a search struct, and the rows it selects. */
module SearchQuery {
  import opened Wrappers
  import opened Text
  import opened NameText
  import opened LikePatterns
  import opened SearchModel
  import opened SqlReader

  // ---------- Compilation ----------

  /** What resolving a field does to the condition, in the order it does it. */
  datatype Setting =
    | Where(clause: Clause, args: seq<Value>)
    | OrderBy(text: string)
    | JoinOn(kind: Kind, on: string, inner: seq<Setting>)

  function LikeFor(driver: Driver): Op
  {
    if driver.Postgres? then ILikeOp else LikeOp
  }

  /** A tagged field whose value is not zero. */
  function ValueSettings(driver: Driver, t: Tag, v: Value): seq<Setting>
  {
    var like := Clause(t.table, t.column, LikeFor(driver));
    match t.kind
    case Exact => [Where(Clause(t.table, t.column, Eq), [v])]
    case Contains => [Where(like, [Str("%" + StringOf(v) + "%")])]
    case StartsWith => [Where(like, [Str(StringOf(v) + "%")])]
    case EndsWith => [Where(like, [Str("%" + StringOf(v))])]
    case Greater => [Where(Clause(t.table, t.column, Gt), [v])]
    case GreaterEq => [Where(Clause(t.table, t.column, Ge), [v])]
    case Less => [Where(Clause(t.table, t.column, Lt), [v])]
    case LessEq => [Where(Clause(t.table, t.column, Le), [v])]
    case In => [Where(Clause(t.table, t.column, InList), [v])]
    case IsNull => [Where(Clause(t.table, t.column, Null), [])]
    case Order =>
      var direction := Lower(StringOf(v));
      if direction == "desc" || direction == "asc" then
        [OrderBy(ColumnText(driver, t.table, t.column) + " " + direction)]
      else []
    case _ => []
  }

  /** formatJoinSQL and formatInnerJoins */
  function JoinText(driver: Driver, t: Tag): string
    requires |t.on| >= 2
  {
    var q := [Quote(driver)];
    (if t.kind.LeftJoin? then "LEFT JOIN " else "INNER JOIN ") + q + t.join + q + " ON "
    + Join(["", t.join, ".", t.on[0], ""], q) + " = " + Join(["", t.table, ".", t.on[1], ""], q)
  }

  predicate IsJoin(t: Tag)
  {
    t.kind.LeftJoin? || t.kind.InnerJoin?
  }

  /**
   What the source needs not to panic: joins that are not zero are structs with two on names and are
   not nested. Under any other tag a struct has to be zero, or the tag without a clause.
   */
  ghost predicate WellTyped(q: Struct, joins: bool)
  {
    match q
    case Nil => true
    case Cons(f, rest) => FieldTyped(f, joins) && WellTyped(rest, joins)
  }

  ghost predicate FieldTyped(f: Field, joins: bool)
  {
    match f
    case Nested(inner) => WellTyped(inner, joins)
    case Skipped(_) => true
    case Tagged(t, v) => IsZeroValue(v) || !IsJoin(t)
    case Joined(t, inner) =>
      || IsZero(inner) || t.kind.Order? || t.kind.Other?
      || (joins && IsJoin(t) && |t.on| >= 2 && WellTyped(inner, false))
  }

  function Settings(driver: Driver, q: Struct): seq<Setting>
  {
    match q
    case Nil => []
    case Cons(f, rest) => FieldSettings(driver, f) + Settings(driver, rest)
  }

  function FieldSettings(driver: Driver, f: Field): seq<Setting>
  {
    match f
    case Nested(inner) => Settings(driver, inner)
    case Skipped(_) => []
    case Tagged(t, v) => if IsZeroValue(v) then [] else ValueSettings(driver, t, v)
    case Joined(t, inner) =>
      if IsZero(inner) || !IsJoin(t) || |t.on| < 2 then []
      else [JoinOn(t.kind, JoinText(driver, t), Settings(driver, inner))]
  }

  /** GormPublic; Or is never set by a search. */
  datatype Public = Public(wheres: map<string, seq<Value>>, order: seq<string>)

  datatype JoinCond = JoinCond(kind: Kind, on: string, public: Public)

  const EMPTY_PUBLIC := Public(map[], [])

  function Set(driver: Driver, p: Public, s: Setting): Public
  {
    match s
    case Where(c, args) => p.(wheres := p.wheres[ClauseText(driver, c) := args])
    case OrderBy(text) => p.(order := p.order + [text])
    case JoinOn(_, _, _) => p
  }

  function SetAll(driver: Driver, p: Public, settings: seq<Setting>): Public
  {
    if settings == [] then p
    else Set(driver, SetAll(driver, p, settings[..|settings| - 1]), settings[|settings| - 1])
  }

  function JoinsOf(driver: Driver, settings: seq<Setting>): seq<JoinCond>
  {
    if settings == [] then []
    else
      var last := settings[|settings| - 1];
      JoinsOf(driver, settings[..|settings| - 1])
      + if last.JoinOn? then [JoinCond(last.kind, last.on, SetAll(driver, EMPTY_PUBLIC, last.inner))] else []
  }

  lemma {:induction false} SetAllConcat(driver: Driver, p: Public, a: seq<Setting>, b: seq<Setting>)
    ensures SetAll(driver, p, a + b) == SetAll(driver, SetAll(driver, p, a), b)
    ensures JoinsOf(driver, a + b) == JoinsOf(driver, a) + JoinsOf(driver, b)
    decreases |b|
  {
    if b == [] {
      assert a + b == a;
    } else {
      assert (a + b)[..|a + b| - 1] == a + b[..|b| - 1];
      SetAllConcat(driver, p, a, b[..|b| - 1]);
    }
  }

  lemma SettingsOfCons(driver: Driver, p: Public, f: Field, rest: Struct)
    ensures SetAll(driver, p, Settings(driver, Cons(f, rest)))
            == SetAll(driver, SetAll(driver, p, FieldSettings(driver, f)), Settings(driver, rest))
    ensures JoinsOf(driver, Settings(driver, Cons(f, rest)))
            == JoinsOf(driver, FieldSettings(driver, f)) + JoinsOf(driver, Settings(driver, rest))
  {
    SetAllConcat(driver, p, FieldSettings(driver, f), Settings(driver, rest));
  }

  lemma OneJoin(driver: Driver, p: Public, s: Setting)
    requires s.JoinOn?
    ensures SetAll(driver, p, [s]) == p
    ensures JoinsOf(driver, [s]) == [JoinCond(s.kind, s.on, SetAll(driver, EMPTY_PUBLIC, s.inner))]
  {
  }

  lemma ValueSetsNoJoin(driver: Driver, t: Tag, v: Value)
    ensures JoinsOf(driver, ValueSettings(driver, t, v)) == []
  {
  }

  // ---------- What clauses mean on a row ----------

  ghost predicate Holds(fold: char -> char, c: Clause, args: seq<Value>, row: Row)
  {
    var cell := Cell(row, c.table, c.column);
    if c.op.Null? then cell.None?
    else
      && cell.Some? && |args| == 1
      && match c.op
         case Eq => cell.value == args[0]
         case LikeOp | ILikeOp =>
           cell.value.Str? && args[0].Str? && Like(Folded(fold, args[0].s), Folded(fold, cell.value.s))
         case Gt => ValueLess(args[0], cell.value)
         case Ge => ValueLess(args[0], cell.value) || args[0] == cell.value
         case Lt => ValueLess(cell.value, args[0])
         case Le => ValueLess(cell.value, args[0]) || args[0] == cell.value
         case InList => if args[0].List? then cell.value in args[0].elems else cell.value == args[0]
         case Null => true
  }

  ghost predicate PassesAll(driver: Driver, fold: char -> char, p: Public, row: Row)
  {
    forall k <- p.wheres :: Passes(driver, fold, k, p.wheres[k], row)
  }

  /** The rows the whole condition lets through. */
  ghost predicate Selects(driver: Driver, fold: char -> char, settings: seq<Setting>, row: Row)
  {
    && PassesAll(driver, fold, SetAll(driver, EMPTY_PUBLIC, settings), row)
    && forall j <- JoinsOf(driver, settings) :: PassesAll(driver, fold, j.public, row)
  }

  // ---------- Later clauses overwrite earlier ones with the same text ----------

  ghost predicate CleanSettings(driver: Driver, settings: seq<Setting>)
  {
    forall s <- settings :: s.Where? ==> CleanClause(driver, s.clause) && OpFits(driver, s.clause.op)
  }

  ghost predicate LastWithText(settings: seq<Setting>, i: int)
  {
    && 0 <= i < |settings| && settings[i].Where?
    && forall j :: i < j < |settings| && settings[j].Where? ==> settings[j].clause != settings[i].clause
  }

  ghost predicate LastsHold(fold: char -> char, settings: seq<Setting>, row: Row)
  {
    forall i :: LastWithText(settings, i) ==> Holds(fold, settings[i].clause, settings[i].args, row)
  }

  /** The operators that are compiled for a driver: ILIKE for Postgres, and LIKE for the others. */
  predicate OpFits(driver: Driver, op: Op)
  {
    (op.LikeOp? ==> !driver.Postgres?) && (op.ILikeOp? ==> driver.Postgres?)
  }

  lemma OpReadsAs(driver: Driver, fold: char -> char, op: Op, args: seq<Value>, row: Row, table: string, column: string)
    requires OpFits(driver, op)
    ensures Asks(driver, fold, OpText(op), args, Cell(row, table, column))
            <==> Holds(fold, Clause(table, column, op), args, row)
  {
  }

  /** A clause is read from its text as it is meant. */
  lemma PassesIsHolds(driver: Driver, fold: char -> char, c: Clause, args: seq<Value>, row: Row)
    requires CleanClause(driver, c) && OpFits(driver, c.op)
    ensures Passes(driver, fold, ClauseText(driver, c), args, row) <==> Holds(fold, c, args, row)
  {
    ClauseTextParts(driver, c);
    OpReadsAs(driver, fold, c.op, args, row, c.table, c.column);
  }

  lemma FrontIsClean(driver: Driver, settings: seq<Setting>)
    requires CleanSettings(driver, settings) && settings != []
    ensures CleanSettings(driver, settings[..|settings| - 1])
  {
  }

  /** The map holds, under each clause's text, the arguments of the last setting with that clause. */
  lemma {:induction false} WheresHoldLast(driver: Driver, settings: seq<Setting>, i: int)
    requires CleanSettings(driver, settings) && LastWithText(settings, i)
    ensures var wheres := SetAll(driver, EMPTY_PUBLIC, settings).wheres;
            && ClauseText(driver, settings[i].clause) in wheres
            && wheres[ClauseText(driver, settings[i].clause)] == settings[i].args
  {
    var n := |settings| - 1;
    if i < n {
      FrontIsClean(driver, settings);
      assert LastWithText(settings[..n], i);
      WheresHoldLast(driver, settings[..n], i);
      if settings[n].Where? {
        assert settings[i] in settings && settings[n] in settings;
        ClauseTextIsInjective(driver, settings[i].clause, settings[n].clause);
      }
    }
  }

  lemma StillLast(settings: seq<Setting>, i: int)
    requires settings != [] && LastWithText(settings[..|settings| - 1], i)
    requires settings[|settings| - 1].Where? ==> settings[|settings| - 1].clause != settings[i].clause
    ensures LastWithText(settings, i)
  {
  }

  lemma {:induction false} WheresAreLast(driver: Driver, settings: seq<Setting>, k: string) returns (i: int)
    requires CleanSettings(driver, settings) && k in SetAll(driver, EMPTY_PUBLIC, settings).wheres
    ensures LastWithText(settings, i) && ClauseText(driver, settings[i].clause) == k
  {
    var n := |settings| - 1;
    if settings[n].Where? && k == ClauseText(driver, settings[n].clause) {
      i := n;
    } else {
      FrontIsClean(driver, settings);
      i := WheresAreLast(driver, settings[..n], k);
      assert settings[..n][i] == settings[i];
      StillLast(settings, i);
    }
  }

  /** One condition selects by exactly the settings that no later one with the same clause replaces. */
  lemma ConditionKeepsLastExactly(driver: Driver, fold: char -> char, settings: seq<Setting>, row: Row)
    requires CleanSettings(driver, settings)
    ensures PassesAll(driver, fold, SetAll(driver, EMPTY_PUBLIC, settings), row) <==> LastsHold(fold, settings, row)
  {
    var wheres := SetAll(driver, EMPTY_PUBLIC, settings).wheres;
    forall i | LastWithText(settings, i)
      ensures var text := ClauseText(driver, settings[i].clause);
              text in wheres && (Passes(driver, fold, text, wheres[text], row)
                                 <==> Holds(fold, settings[i].clause, settings[i].args, row))
    {
      assert settings[i] in settings;
      WheresHoldLast(driver, settings, i);
      PassesIsHolds(driver, fold, settings[i].clause, settings[i].args, row);
    }
    forall k <- wheres
      ensures exists i :: LastWithText(settings, i) && ClauseText(driver, settings[i].clause) == k
    {
      var i := WheresAreLast(driver, settings, k);
    }
  }

  // ---------- The search as a predicate on rows ----------

  predicate Texts(cell: Option<Value>, v: Value)
  {
    cell.Some? && cell.value.Str? && v.Str?
  }

  /** What a field asks of a row, said without patterns or clauses; only a string is part of a text. */
  ghost predicate Wants(fold: char -> char, t: Tag, v: Value, row: Row)
  {
    var cell := Cell(row, t.table, t.column);
    match t.kind
    case Exact => cell == Some(v)
    case Contains => Texts(cell, v) && Substring(Folded(fold, v.s), Folded(fold, cell.value.s))
    case StartsWith => Texts(cell, v) && Folded(fold, v.s) <= Folded(fold, cell.value.s)
    case EndsWith => Texts(cell, v) && Suffix(Folded(fold, v.s), Folded(fold, cell.value.s))
    case Greater => cell.Some? && ValueLess(v, cell.value)
    case GreaterEq => cell.Some? && (ValueLess(v, cell.value) || v == cell.value)
    case Less => cell.Some? && ValueLess(cell.value, v)
    case LessEq => cell.Some? && (ValueLess(cell.value, v) || v == cell.value)
    case In => cell.Some? && if v.List? then cell.value in v.elems else cell.value == v
    case IsNull => cell.None?
    case _ => true
  }

  /** The conjunction of all tagged fields that are not zero, nested and joined ones included. */
  ghost predicate Matches(fold: char -> char, q: Struct, row: Row)
  {
    match q
    case Nil => true
    case Cons(f, rest) => FieldMatches(fold, f, row) && Matches(fold, rest, row)
  }

  ghost predicate FieldMatches(fold: char -> char, f: Field, row: Row)
  {
    match f
    case Nested(inner) => Matches(fold, inner, row)
    case Skipped(_) => true
    case Tagged(t, v) => IsZeroValue(v) || Wants(fold, t, v, row)
    case Joined(t, inner) => IsZero(inner) || !IsJoin(t) || Matches(fold, inner, row)
  }

  /** Every pattern field that is compiled is a string. */
  ghost predicate StringPatterns(q: Struct)
  {
    match q
    case Nil => true
    case Cons(f, rest) => StringField(f) && StringPatterns(rest)
  }

  ghost predicate StringField(f: Field)
  {
    match f
    case Nested(inner) => StringPatterns(inner)
    case Skipped(_) => true
    case Tagged(t, v) => IsZeroValue(v) || (IsPattern(t) ==> v.Str?)
    case Joined(t, inner) => IsZero(inner) || !IsJoin(t) || StringPatterns(inner)
  }

  /** Names without the quote character, and plain values where a pattern is built. */
  ghost predicate CleanStruct(driver: Driver, q: Struct)
  {
    match q
    case Nil => true
    case Cons(f, rest) => CleanField(driver, f) && CleanStruct(driver, rest)
  }

  ghost predicate CleanField(driver: Driver, f: Field)
  {
    match f
    case Nested(inner) => CleanStruct(driver, inner)
    case Skipped(_) => true
    case Tagged(t, v) =>
      CleanName(driver, t.table) && CleanName(driver, t.column) && (IsPattern(t) ==> Plain(StringOf(v)))
    case Joined(_, inner) => CleanStruct(driver, inner)
  }

  ghost predicate SettingHolds(fold: char -> char, s: Setting, row: Row)
  {
    match s
    case Where(c, args) => Holds(fold, c, args, row)
    case OrderBy(_) => true
    case JoinOn(_, _, inner) => forall t <- inner :: t.Where? ==> Holds(fold, t.clause, t.args, row)
  }

  /** All settings hold, those of joins included, whether or not they survive in the condition. */
  ghost predicate AllHold(fold: char -> char, settings: seq<Setting>, row: Row)
  {
    forall s <- settings :: SettingHolds(fold, s, row)
  }

  lemma OneHolds(fold: char -> char, s: Setting, row: Row)
    ensures AllHold(fold, [s], row) <==> SettingHolds(fold, s, row)
  {
  }

  lemma FoldedConcat(fold: char -> char, a: string, b: string)
    ensures Folded(fold, a + b) == Folded(fold, a) + Folded(fold, b)
  {
  }

  lemma PatternHolds(fold: char -> char, v: Value, s: string)
    requires CaseRule(fold) && Plain(StringOf(v))
    ensures var text := Folded(fold, StringOf(v));
            && (Like(Folded(fold, "%" + StringOf(v) + "%"), s) <==> Substring(text, s))
            && (Like(Folded(fold, StringOf(v) + "%"), s) <==> text <= s)
            && (Like(Folded(fold, "%" + StringOf(v)), s) <==> Suffix(text, s))
  {
    var text := Folded(fold, StringOf(v));
    assert Folded(fold, "%") == "%";
    FoldedConcat(fold, "%", StringOf(v));
    FoldedConcat(fold, "%" + StringOf(v), "%");
    FoldedConcat(fold, StringOf(v), "%");
    forall i | 0 <= i < |text|
      ensures text[i] != '%' && text[i] != '_' && text[i] != '\\'
    {
      assert StringOf(v)[i] in StringOf(v);
    }
    PatternsMean(text, s);
  }

  predicate IsPattern(t: Tag)
  {
    t.kind.Contains? || t.kind.StartsWith? || t.kind.EndsWith?
  }

  lemma PatternSettingMeans(driver: Driver, fold: char -> char, t: Tag, v: Value, row: Row)
    requires CaseRule(fold) && IsPattern(t) && v.Str? && Plain(v.s)
    ensures SettingHolds(fold, ValueSettings(driver, t, v)[0], row) <==> Wants(fold, t, v, row)
  {
    var cell := Cell(row, t.table, t.column);
    var setting := ValueSettings(driver, t, v)[0];
    assert SettingHolds(fold, setting, row) <==>
      cell.Some? && cell.value.Str? && Like(Folded(fold, setting.args[0].s), Folded(fold, cell.value.s));
    if cell.Some? && cell.value.Str? {
      PatternHolds(fold, v, Folded(fold, cell.value.s));
    }
  }

  /** One field's settings ask of a row what the field does. */
  lemma ValueSettingsMean(driver: Driver, fold: char -> char, t: Tag, v: Value, row: Row)
    requires CaseRule(fold) && (IsPattern(t) ==> v.Str? && Plain(v.s))
    ensures AllHold(fold, ValueSettings(driver, t, v), row) <==> Wants(fold, t, v, row)
  {
    var settings := ValueSettings(driver, t, v);
    if settings != [] {
      if IsPattern(t) {
        PatternSettingMeans(driver, fold, t, v, row);
      } else {
      }
      OneHolds(fold, settings[0], row);
      assert settings == [settings[0]];
    }
  }

  /** Without joins every setting is a where or an order. */
  lemma {:induction false} NoJoinSettings(driver: Driver, q: Struct)
    requires WellTyped(q, false)
    ensures forall s <- Settings(driver, q) :: !s.JoinOn?
  {
    if q.Cons? {
      NoJoinSettings(driver, q.rest);
      if q.field.Nested? {
        NoJoinSettings(driver, q.field.inner);
      }
    }
  }

  /** The settings of a struct hold on exactly the rows the search means. */
  lemma {:induction false} SettingsMean(driver: Driver, fold: char -> char, q: Struct, joins: bool, row: Row)
    requires CaseRule(fold) && WellTyped(q, joins) && CleanStruct(driver, q) && StringPatterns(q)
    ensures AllHold(fold, Settings(driver, q), row) <==> Matches(fold, q, row)
    decreases q
  {
    match q
    case Nil =>
    case Cons(f, rest) =>
      SettingsMean(driver, fold, rest, joins, row);
      match f {
        case Nested(inner) => SettingsMean(driver, fold, inner, joins, row);
        case Skipped(_) =>
        case Tagged(t, v) =>
          if !IsZeroValue(v) {
            ValueSettingsMean(driver, fold, t, v, row);
          }
        case Joined(t, inner) =>
          if IsZero(inner) || !IsJoin(t) {
            return;
          }
          SettingsMean(driver, fold, inner, false, row);
          NoJoinSettings(driver, inner);
          var join := JoinOn(t.kind, JoinText(driver, t), Settings(driver, inner));
          OneHolds(fold, join, row);
      }
  }

  lemma {:induction false} SettingsAreClean(driver: Driver, q: Struct, joins: bool)
    requires WellTyped(q, joins) && CleanStruct(driver, q)
    ensures CleanSettings(driver, Settings(driver, q))
    ensures forall s <- Settings(driver, q) :: s.JoinOn? ==> CleanSettings(driver, s.inner)
    decreases q, 1
  {
    if q.Cons? {
      SettingsAreClean(driver, q.rest, joins);
      FieldSettingsAreClean(driver, q.field, joins);
    }
  }

  lemma {:induction false} FieldSettingsAreClean(driver: Driver, f: Field, joins: bool)
    requires FieldTyped(f, joins) && CleanField(driver, f)
    ensures CleanSettings(driver, FieldSettings(driver, f))
    ensures forall s <- FieldSettings(driver, f) :: s.JoinOn? ==> CleanSettings(driver, s.inner)
    decreases f, 0
  {
    match f
    case Nested(inner) => SettingsAreClean(driver, inner, joins);
    case Joined(t, inner) =>
      if !IsZero(inner) && IsJoin(t) {
        SettingsAreClean(driver, inner, false);
      }
    case _ =>
  }

  /** A strict comparison with a slice, which no value passes. */
  predicate Dead(s: Setting)
  {
    s.Where? && (s.clause.op.Gt? || s.clause.op.Lt?) && |s.args| == 1 && (s.args[0].List? || s.args[0].NilList?)
  }

  /** A setting that a later one with the same clause replaces has its arguments, or nothing passes the later one. */
  ghost predicate Agrees(settings: seq<Setting>)
  {
    forall i, j :: 0 <= i < j < |settings| && settings[i].Where? && settings[j].Where?
                   && settings[i].clause == settings[j].clause ==>
      settings[i].args == settings[j].args || Dead(settings[j])
  }

  ghost predicate AllAgree(settings: seq<Setting>)
  {
    Agrees(settings) && forall s <- settings :: s.JoinOn? ==> Agrees(s.inner)
  }

  lemma {:induction false} JoinsAreSettings(driver: Driver, settings: seq<Setting>, j: JoinCond)
    ensures j in JoinsOf(driver, settings)
            <==> exists s <- settings :: s.JoinOn? && j == JoinCond(s.kind, s.on, SetAll(driver, EMPTY_PUBLIC, s.inner))
  {
    if settings != [] {
      JoinsAreSettings(driver, settings[..|settings| - 1], j);
      assert settings == settings[..|settings| - 1] + [settings[|settings| - 1]];
    }
  }

  /** A whole condition selects by exactly the settings, in it or in a join, that are not replaced. */
  lemma SelectionKeepsLastExactly(driver: Driver, fold: char -> char, settings: seq<Setting>, row: Row)
    requires CleanSettings(driver, settings)
    requires forall s <- settings :: s.JoinOn? ==> CleanSettings(driver, s.inner)
    ensures Selects(driver, fold, settings, row)
            <==> LastsHold(fold, settings, row) && forall s <- settings :: s.JoinOn? ==> LastsHold(fold, s.inner, row)
  {
    ConditionKeepsLastExactly(driver, fold, settings, row);
    forall s <- settings | s.JoinOn?
      ensures var j := JoinCond(s.kind, s.on, SetAll(driver, EMPTY_PUBLIC, s.inner));
              j in JoinsOf(driver, settings)
              && (PassesAll(driver, fold, j.public, row) <==> LastsHold(fold, s.inner, row))
    {
      JoinsAreSettings(driver, settings, JoinCond(s.kind, s.on, SetAll(driver, EMPTY_PUBLIC, s.inner)));
      ConditionKeepsLastExactly(driver, fold, s.inner, row);
    }
    forall j <- JoinsOf(driver, settings)
      ensures exists s <- settings :: s.JoinOn? && j == JoinCond(s.kind, s.on, SetAll(driver, EMPTY_PUBLIC, s.inner))
    {
      JoinsAreSettings(driver, settings, j);
    }
  }

  lemma {:induction false} LastOf(settings: seq<Setting>, i: nat) returns (j: int)
    requires i < |settings| && settings[i].Where?
    ensures i <= j && LastWithText(settings, j) && settings[j].clause == settings[i].clause
  {
    var n := |settings| - 1;
    if settings[n].Where? && settings[n].clause == settings[i].clause {
      j := n;
    } else {
      j := LastOf(settings[..n], i);
      assert settings[..n][j] == settings[j];
      StillLast(settings, j);
    }
  }

  lemma AgreeingKeepsAll(fold: char -> char, settings: seq<Setting>, row: Row)
    requires Agrees(settings)
    ensures LastsHold(fold, settings, row)
            <==> forall s <- settings :: s.Where? ==> Holds(fold, s.clause, s.args, row)
  {
    if LastsHold(fold, settings, row) {
      forall s <- settings | s.Where?
        ensures Holds(fold, s.clause, s.args, row)
      {
        var i :| 0 <= i < |settings| && settings[i] == s;
        var j := LastOf(settings, i);
        assert Holds(fold, settings[j].clause, settings[j].args, row);
      }
    }
  }

  /**
   The compiled condition selects exactly the rows that satisfy every non-zero field of the search,
   through nested structs and joins, when fields of one condition that share a clause agree on it.
   */
  lemma SearchSelectsMatches(driver: Driver, fold: char -> char, q: Struct, row: Row)
    requires CaseRule(fold) && WellTyped(q, true) && CleanStruct(driver, q) && StringPatterns(q)
    requires AllAgree(Settings(driver, q))
    ensures Selects(driver, fold, Settings(driver, q), row) <==> Matches(fold, q, row)
  {
    var settings := Settings(driver, q);
    SettingsAreClean(driver, q, true);
    SelectionKeepsLastExactly(driver, fold, settings, row);
    AgreeingKeepsAll(fold, settings, row);
    forall s <- settings | s.JoinOn?
      ensures LastsHold(fold, s.inner, row)
              <==> forall t <- s.inner :: t.Where? ==> Holds(fold, t.clause, t.args, row)
    {
      AgreeingKeepsAll(fold, s.inner, row);
    }
    SettingsMean(driver, fold, q, true, row);
  }
}
