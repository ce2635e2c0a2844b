/**
 Search structs, the clauses compiled from them and what both mean on a row. A row is a joined
 row: a column of any of the joined tables, or NULL.
 */
module SearchModel {
  import opened Text

  datatype Driver = Postgres | OtherDriver

  /** A field's value: a string, an int, a time, a slice, or a nil slice. */
  datatype Value = Str(s: string) | Num(n: int) | Stamp(at: int) | List(elems: seq<Value>) | NilList

  /** The tag's type; names that the switch does not list are Other. */
  datatype Kind =
    | Exact | Contains | StartsWith | EndsWith | Greater | GreaterEq | Less | LessEq
    | In | IsNull | Order | LeftJoin | InnerJoin | Other

  datatype Tag = Tag(kind: Kind, column: string, table: string, on: seq<string>, join: string)

  /** A struct: untagged fields are structs, other structs are joined, "-" skips a field, zero or not. */
  datatype Struct = Nil | Cons(field: Field, rest: Struct)
  datatype Field =
    | Nested(inner: Struct)
    | Skipped(zero: bool)
    | Tagged(tag: Tag, value: Value)
    | Joined(tag: Tag, inner: Struct)

  /** reflect.Value.IsZero */
  predicate IsZeroValue(v: Value)
  {
    v == Str("") || v == Num(0) || v == Stamp(0) || v == NilList
  }

  predicate IsZero(q: Struct)
  {
    match q
    case Nil => true
    case Cons(f, rest) =>
      && IsZero(rest)
      && match f
         case Nested(inner) => IsZero(inner)
         case Skipped(zero) => zero
         case Tagged(_, v) => IsZeroValue(v)
         case Joined(_, inner) => IsZero(inner)
  }

  /** reflect.Value.String */
  function StringOf(v: Value): string
  {
    match v
    case Str(s) => s
    case Num(_) => "<int Value>"
    case Stamp(_) => "<time.Time Value>"
    case _ => "<[]string Value>"
  }

  // ---------- Clauses ----------

  datatype Op = Eq | LikeOp | ILikeOp | Gt | Ge | Lt | Le | InList | Null

  datatype Clause = Clause(table: string, column: string, op: Op)

  function OpText(op: Op): string
  {
    match op
    case Eq => " = ?"
    case LikeOp => " LIKE ?"
    case ILikeOp => " ILIKE ?"
    case Gt => " > ?"
    case Ge => " >= ?"
    case Lt => " < ?"
    case Le => " <= ?"
    case InList => " in (?)"
    case Null => " is null"
  }

  function Quote(driver: Driver): char
  {
    if driver.Postgres? then '"' else '`'
  }

  /** formatColumn: both names between quotes, with a dot between them. */
  function ColumnText(driver: Driver, table: string, column: string): string
  {
    Join(["", table, ".", column, ""], [Quote(driver)])
  }

  function ClauseText(driver: Driver, c: Clause): string
  {
    ColumnText(driver, c.table, c.column) + OpText(c.op)
  }

  ghost predicate CleanName(driver: Driver, name: string)
  {
    Free(name, Quote(driver))
  }

  ghost predicate CleanClause(driver: Driver, c: Clause)
  {
    CleanName(driver, c.table) && CleanName(driver, c.column)
  }

  lemma {:induction false} JoinThen(parts: seq<string>, sep: string, suffix: string)
    ensures Join(parts + [""], sep) + suffix == Join(parts + [suffix], sep)
  {
    if parts == [] {
      assert [] + [""] == [""] && [] + [suffix] == [suffix];
    } else {
      JoinThen(parts[1..], sep, suffix);
      assert (parts + [""])[1..] == parts[1..] + [""] && (parts + [suffix])[1..] == parts[1..] + [suffix];
      var rest := Join(parts[1..] + [""], sep);
      assert parts[0] + sep + rest + suffix == parts[0] + sep + (rest + suffix);
    }
  }

  lemma ClauseTextParts(driver: Driver, c: Clause)
    requires CleanClause(driver, c)
    ensures Split(ClauseText(driver, c), Quote(driver)) == ["", c.table, ".", c.column, OpText(c.op)]
  {
    var parts := ["", c.table, ".", c.column];
    JoinThen(parts, [Quote(driver)], OpText(c.op));
    assert parts + [""] == ["", c.table, ".", c.column, ""];
    SplitJoin(parts + [OpText(c.op)], Quote(driver));
    assert parts + [OpText(c.op)] == ["", c.table, ".", c.column, OpText(c.op)];
  }

  /** A clause's text tells its table, column and operator, for names without the quote character. */
  lemma ClauseTextIsInjective(driver: Driver, a: Clause, b: Clause)
    requires CleanClause(driver, a) && CleanClause(driver, b)
    ensures ClauseText(driver, a) == ClauseText(driver, b) <==> a == b
  {
    if ClauseText(driver, a) == ClauseText(driver, b) {
      ClauseTextParts(driver, a);
      ClauseTextParts(driver, b);
      var pa := ["", a.table, ".", a.column, OpText(a.op)];
      var pb := ["", b.table, ".", b.column, OpText(b.op)];
      assert pa[1] == pb[1] && pa[3] == pb[3] && pa[4] == pb[4];
    }
  }
}
