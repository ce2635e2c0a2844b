/**
 What where entries say, read from their text as the database reads it: two names between quotes
 with a dot between them, and an operator with the place of its argument. A row is a joined row: a
 column of any of the joined tables, or NULL.
 */
module SqlReader {
  import opened Wrappers
  import opened Text
  import opened LikePatterns
  import opened SearchModel

  /** The columns of a joined row that are not NULL. */
  type Row = map<(string, string), Value>

  function Cell(row: Row, table: string, column: string): Option<Value>
  {
    if (table, column) in row then Some(row[(table, column)]) else None
  }

  predicate StringLess(a: string, b: string)
  {
    b != "" && (a == "" || a[0] < b[0] || (a[0] == b[0] && StringLess(a[1..], b[1..])))
  }

  predicate ValueLess(a: Value, b: Value)
  {
    match (a, b)
    case (Num(m), Num(n)) => m < n
    case (Stamp(m), Stamp(n)) => m < n
    case (Str(s), Str(t)) => StringLess(s, t)
    case _ => false
  }

  /** Texts are in the order of their first difference, where one that has ended comes first. */
  lemma {:induction false} StringLessExactly(a: string, b: string)
    ensures StringLess(a, b) <==>
      exists i :: 0 <= i <= |a| && i < |b| && a[..i] == b[..i] && (i == |a| || a[i] < b[i])
  {
    if b != "" && a != "" && a[0] == b[0] {
      StringLessExactly(a[1..], b[1..]);
      var x, y := a[1..], b[1..];
      if i :| 0 <= i <= |x| && i < |y| && x[..i] == y[..i] && (i == |x| || x[i] < y[i]) {
        assert a[..i + 1] == [a[0]] + a[1..][..i] && b[..i + 1] == [b[0]] + b[1..][..i];
      }
      if i :| 0 <= i <= |a| && i < |b| && a[..i] == b[..i] && (i == |a| || a[i] < b[i]) {
        assert i > 0 ==> a[1..][..i - 1] == a[..i][1..] && b[1..][..i - 1] == b[..i][1..];
        assert i > 0;
        assert a[1..][..i - 1] == b[1..][..i - 1];
      }
    } else if a == "" && b != "" {
      assert a[..0] == b[..0];
    } else if b != "" {
      assert a[..0] == b[..0];
      assert forall i :: 0 < i <= |a| && i < |b| && a[..i] == b[..i] ==> a[..i][0] == b[..i][0];
    }
  }

  /** Numbers and times are in the order of their size; values of different types are in none. */
  lemma NumbersAreOrdered(m: int, n: int, s: string)
    ensures ValueLess(Num(m), Num(n)) <==> m < n
    ensures ValueLess(Stamp(m), Stamp(n)) <==> m < n
    ensures !ValueLess(Num(m), Stamp(n)) && !ValueLess(Num(m), Str(s)) && !ValueLess(Str(s), Num(m))
  {
  }

  /** The driver's case rule for LIKE, letter by letter; it leaves wildcards and escapes alone. */
  ghost predicate CaseRule(fold: char -> char)
  {
    forall c :: (fold(c) == '%' <==> c == '%') && (fold(c) == '_' <==> c == '_') && (fold(c) == '\\' <==> c == '\\')
  }

  function Folded(fold: char -> char, s: string): (r: string)
    ensures |r| == |s| && forall i :: 0 <= i < |s| ==> r[i] == fold(s[i])
  {
    seq(|s|, i requires 0 <= i < |s| => fold(s[i]))
  }

  ghost predicate LikeHolds(pattern: Value, fold: char -> char, cell: Value)
  {
    pattern.Str? && cell.Str? && Like(Folded(fold, pattern.s), Folded(fold, cell.s))
  }

  /** What comes after the column asks of its cell. On Postgres LIKE minds the case, and ILIKE does not. */
  ghost predicate Asks(driver: Driver, fold: char -> char, operator: string, args: seq<Value>, cell: Option<Value>)
  {
    if operator == " is null" then cell.None?
    else
      && cell.Some? && |args| == 1
      && var (arg, value) := (args[0], cell.value);
         if operator == " = ?" then value == arg
         else if operator == " > ?" then ValueLess(arg, value)
         else if operator == " >= ?" then ValueLess(arg, value) || arg == value
         else if operator == " < ?" then ValueLess(value, arg)
         else if operator == " <= ?" then ValueLess(value, arg) || arg == value
         else if operator == " LIKE ?" then LikeHolds(arg, if driver.Postgres? then c => c else fold, value)
         else if operator == " ILIKE ?" then driver.Postgres? && LikeHolds(arg, fold, value)
         else if operator == " in (?)" then if arg.List? then value in arg.elems else value == arg
         else false
  }

  /** A where entry lets a row through. */
  ghost predicate Passes(driver: Driver, fold: char -> char, text: string, args: seq<Value>, row: Row)
  {
    var parts := Split(text, if driver.Postgres? then '"' else '`');
    && |parts| == 5 && parts[0] == "" && parts[2] == "."
    && Asks(driver, fold, parts[4], args, Cell(row, parts[1], parts[3]))
  }
}
