/** Which structs, over all values of their fields, compile to a condition that means the search. */
module SearchShapes {
  import opened Wrappers
  import opened LikePatterns
  import opened SearchModel
  import opened SqlReader
  import opened SearchQuery

  // ---------- Structs that differ in their values only ----------

  /** Values that one field can hold, since a field has one type. */
  predicate SameType(v: Value, v': Value)
  {
    match v
    case Str(_) => v'.Str?
    case Num(_) => v'.Num?
    case Stamp(_) => v'.Stamp?
    case _ => v'.List? || v'.NilList?
  }

  ghost predicate SameShape(q: Struct, q': Struct)
  {
    match (q, q')
    case (Nil, Nil) => true
    case (Cons(f, rest), Cons(f', rest')) => SameField(f, f') && SameShape(rest, rest')
    case _ => false
  }

  ghost predicate SameField(f: Field, f': Field)
  {
    match (f, f')
    case (Nested(inner), Nested(inner')) => SameShape(inner, inner')
    case (Skipped(_), Skipped(_)) => true
    case (Tagged(t, v), Tagged(t', v')) => t == t' && SameType(v, v')
    case (Joined(t, inner), Joined(t', inner')) => t == t' && SameShape(inner, inner')
    case _ => false
  }

  /** The fields that go into one condition: nested structs are opened, joins are not. */
  function Flat(q: Struct): seq<Field>
  {
    match q
    case Nil => []
    case Cons(Nested(inner), rest) => Flat(inner) + Flat(rest)
    case Cons(f, rest) => [f] + Flat(rest)
  }

  /** The clause that a field with this tag sets when it is not zero. */
  function ClauseOf(driver: Driver, t: Tag): Option<Clause>
  {
    match t.kind
    case Exact => Some(Clause(t.table, t.column, Eq))
    case Contains | StartsWith | EndsWith => Some(Clause(t.table, t.column, LikeFor(driver)))
    case Greater => Some(Clause(t.table, t.column, Gt))
    case GreaterEq => Some(Clause(t.table, t.column, Ge))
    case Less => Some(Clause(t.table, t.column, Lt))
    case LessEq => Some(Clause(t.table, t.column, Le))
    case In => Some(Clause(t.table, t.column, InList))
    case IsNull => Some(Clause(t.table, t.column, Null))
    case _ => None
  }

  /** A field of slice type. */
  predicate Slice(v: Value)
  {
    v.List? || v.NilList?
  }

  /**
   A field and a later one that set one clause, other than isnull, which has no argument to disagree
   on, and other than a strict comparison with a slice as the later one, which nothing passes anyway.
   */
  predicate Clash(driver: Driver, f: Field, g: Field)
  {
    && f.Tagged? && g.Tagged? && !f.tag.kind.IsNull?
    && ClauseOf(driver, f.tag).Some? && ClauseOf(driver, f.tag) == ClauseOf(driver, g.tag)
    && !((g.tag.kind.Greater? || g.tag.kind.Less?) && Slice(g.value))
  }

  /** Fields that clash have the kinds that compile to one operator, on one column. */
  lemma ClashingTags(driver: Driver, f: Field, g: Field)
    requires Clash(driver, f, g)
    ensures f.tag.table == g.tag.table && f.tag.column == g.tag.column
    ensures f.tag.kind == g.tag.kind || (IsPattern(f.tag) && IsPattern(g.tag))
    ensures !f.tag.kind.IsNull? && !f.tag.kind.Order? && !f.tag.kind.Other? && !IsJoin(f.tag)
  {
  }

  ghost predicate ClashFree(driver: Driver, q: Struct)
  {
    forall i, j :: 0 <= i < j < |Flat(q)| ==> !Clash(driver, Flat(q)[i], Flat(q)[j])
  }

  predicate ActiveJoin(f: Field)
  {
    f.Joined? && IsJoin(f.tag) && |f.tag.on| >= 2
  }

  /** No two fields of one condition clash, neither in the struct itself nor in one of its joins. */
  ghost predicate ShapeClashFree(driver: Driver, q: Struct)
  {
    ClashFree(driver, q) && forall f <- Flat(q) :: ActiveJoin(f) ==> ClashFree(driver, f.inner)
  }

  lemma {:induction false} SameShapeFlat(q: Struct, q': Struct)
    requires SameShape(q, q')
    ensures |Flat(q)| == |Flat(q')|
    ensures forall i :: 0 <= i < |Flat(q)| ==> SameField(Flat(q)[i], Flat(q')[i])
  {
    if q.Cons? {
      SameShapeFlat(q.rest, q'.rest);
      if q.field.Nested? {
        SameShapeFlat(q.field.inner, q'.field.inner);
      }
    }
  }

  lemma SameShapeClashFree(driver: Driver, q: Struct, q': Struct)
    requires SameShape(q, q') && ClashFree(driver, q)
    ensures ClashFree(driver, q')
  {
    SameShapeFlat(q, q');
    forall i, j | 0 <= i < j < |Flat(q')|
      ensures !Clash(driver, Flat(q')[i], Flat(q')[j])
    {
      assert !Clash(driver, Flat(q)[i], Flat(q)[j]);
    }
  }

  lemma SameShapeAllClashFree(driver: Driver, q: Struct, q': Struct)
    requires SameShape(q, q') && ShapeClashFree(driver, q)
    ensures ShapeClashFree(driver, q')
  {
    SameShapeFlat(q, q');
    SameShapeClashFree(driver, q, q');
    forall f <- Flat(q') | ActiveJoin(f)
      ensures ClashFree(driver, f.inner)
    {
      var i :| 0 <= i < |Flat(q')| && Flat(q')[i] == f;
      assert Flat(q)[i] in Flat(q);
      SameShapeClashFree(driver, Flat(q)[i].inner, f.inner);
    }
  }

  // ---------- Settings, field by field ----------

  function FlatSettings(driver: Driver, fs: seq<Field>): seq<Setting>
  {
    if fs == [] then [] else FieldSettings(driver, fs[0]) + FlatSettings(driver, fs[1..])
  }

  lemma {:induction false} FlatSettingsConcat(driver: Driver, a: seq<Field>, b: seq<Field>)
    ensures FlatSettings(driver, a + b) == FlatSettings(driver, a) + FlatSettings(driver, b)
  {
    if a == [] {
      assert a + b == b;
    } else {
      assert (a + b)[1..] == a[1..] + b;
      FlatSettingsConcat(driver, a[1..], b);
    }
  }

  lemma {:induction false} SettingsAreFlat(driver: Driver, q: Struct)
    ensures Settings(driver, q) == FlatSettings(driver, Flat(q))
  {
    if q.Cons? {
      SettingsAreFlat(driver, q.rest);
      if q.field.Nested? {
        SettingsAreFlat(driver, q.field.inner);
        FlatSettingsConcat(driver, Flat(q.field.inner), Flat(q.rest));
      } else {
        assert Flat(q)[1..] == Flat(q.rest);
      }
    }
  }

  lemma {:induction false} NoNestedInFlat(q: Struct)
    ensures forall f <- Flat(q) :: !f.Nested?
  {
    if q.Cons? {
      NoNestedInFlat(q.rest);
      if q.field.Nested? {
        NoNestedInFlat(q.field.inner);
      }
    }
  }

  lemma {:induction false} SettingHasField(driver: Driver, fs: seq<Field>, s: Setting) returns (i: nat)
    requires s in FlatSettings(driver, fs)
    ensures i < |fs| && s in FieldSettings(driver, fs[i])
  {
    if s in FieldSettings(driver, fs[0]) {
      i := 0;
    } else {
      var k := SettingHasField(driver, fs[1..], s);
      i := k + 1;
    }
  }

  lemma ValueSetsItsClause(driver: Driver, t: Tag, v: Value)
    ensures var settings := ValueSettings(driver, t, v);
            && (ClauseOf(driver, t).Some? ==> |settings| == 1)
            && forall s <- settings :: !s.JoinOn? && settings == [s]
                 && (s.Where? ==> ClauseOf(driver, t) == Some(s.clause) && (t.kind.IsNull? ==> s.args == []))
  {
  }

  lemma FieldsAgree(driver: Driver, f: Field, g: Field, s: Setting, u: Setting)
    requires !f.Nested? && !g.Nested? && s in FieldSettings(driver, f) && u in FieldSettings(driver, g)
    requires s.Where? && u.Where? && s.clause == u.clause && !Clash(driver, f, g)
    ensures s.args == u.args || Dead(u)
  {
    ValueSetsItsClause(driver, f.tag, f.value);
    ValueSetsItsClause(driver, g.tag, g.value);
  }

  lemma OneSettingAtMost(driver: Driver, f: Field)
    requires !f.Nested?
    ensures |FieldSettings(driver, f)| <= 1
  {
    if f.Tagged? {
      ValueSetsItsClause(driver, f.tag, f.value);
    }
  }

  function Concat<T>(parts: seq<seq<T>>): seq<T>
  {
    if parts == [] then [] else parts[0] + Concat(parts[1..])
  }

  lemma {:induction false} PartOf<T>(parts: seq<seq<T>>, j: nat) returns (b: nat)
    requires j < |Concat(parts)|
    ensures b < |parts| && Concat(parts)[j] in parts[b]
  {
    if j < |parts[0]| {
      b := 0;
    } else {
      var k := PartOf(parts[1..], j - |parts[0]|);
      b := k + 1;
    }
  }

  /** Of parts with one element at most, those of two elements are in the order of the elements. */
  lemma {:induction false} PartsOf<T>(parts: seq<seq<T>>, i: nat, j: nat) returns (a: nat, b: nat)
    requires i < j < |Concat(parts)| && forall p <- parts :: |p| <= 1
    ensures a < b < |parts| && Concat(parts)[i] in parts[a] && Concat(parts)[j] in parts[b]
  {
    var n := |parts[0]|;
    assert Concat(parts)[j] == Concat(parts[1..])[j - n];
    if i < n {
      var k := PartOf(parts[1..], j - n);
      a, b := 0, k + 1;
    } else {
      var x, y := PartsOf(parts[1..], i - n, j - n);
      a, b := x + 1, y + 1;
    }
  }

  function EachSettings(driver: Driver, fs: seq<Field>): seq<seq<Setting>>
  {
    seq(|fs|, i requires 0 <= i < |fs| => FieldSettings(driver, fs[i]))
  }

  lemma {:induction false} FlatIsConcat(driver: Driver, fs: seq<Field>)
    ensures FlatSettings(driver, fs) == Concat(EachSettings(driver, fs))
  {
    if fs != [] {
      FlatIsConcat(driver, fs[1..]);
      assert EachSettings(driver, fs)[1..] == EachSettings(driver, fs[1..]);
    }
  }

  lemma ClashFreeAgrees(driver: Driver, q: Struct)
    requires ClashFree(driver, q)
    ensures Agrees(Settings(driver, q))
  {
    var fs, settings := Flat(q), Settings(driver, q);
    SettingsAreFlat(driver, q);
    NoNestedInFlat(q);
    FlatIsConcat(driver, fs);
    forall k | 0 <= k < |fs|
      ensures |EachSettings(driver, fs)[k]| <= 1
    {
      assert fs[k] in fs;
      OneSettingAtMost(driver, fs[k]);
    }
    forall i, j | 0 <= i < j < |settings| && settings[i].Where? && settings[j].Where?
                  && settings[i].clause == settings[j].clause
      ensures settings[i].args == settings[j].args || Dead(settings[j])
    {
      var a, b := PartsOf(EachSettings(driver, fs), i, j);
      assert fs[a] in fs && fs[b] in fs && !Clash(driver, fs[a], fs[b]);
      FieldsAgree(driver, fs[a], fs[b], settings[i], settings[j]);
    }
  }

  lemma ShapeClashFreeAgrees(driver: Driver, q: Struct)
    requires ShapeClashFree(driver, q)
    ensures AllAgree(Settings(driver, q))
  {
    var fs := Flat(q);
    ClashFreeAgrees(driver, q);
    SettingsAreFlat(driver, q);
    NoNestedInFlat(q);
    forall s <- Settings(driver, q) | s.JoinOn?
      ensures Agrees(s.inner)
    {
      var i := SettingHasField(driver, fs, s);
      assert fs[i] in fs;
      if fs[i].Tagged? {
        ValueSetsItsClause(driver, fs[i].tag, fs[i].value);
      } else {
        ClashFreeAgrees(driver, fs[i].inner);
      }
    }
  }

  // ---------- Giving values to single fields ----------

  function ZeroOf(v: Value): Value
  {
    match v
    case Str(_) => Str("")
    case Num(_) => Num(0)
    case Stamp(_) => Stamp(0)
    case _ => NilList
  }

  function Zeroed(q: Struct): Struct
  {
    match q
    case Nil => Nil
    case Cons(f, rest) => Cons(ZeroedField(f), Zeroed(rest))
  }

  function ZeroedField(f: Field): Field
  {
    match f
    case Nested(inner) => Nested(Zeroed(inner))
    case Skipped(_) => Skipped(true)
    case Tagged(t, v) => Tagged(t, ZeroOf(v))
    case Joined(t, inner) => Joined(t, Zeroed(inner))
  }

  /** Puts a field in the place of the i-th one of the condition. */
  function Put(q: Struct, i: nat, f: Field): Struct
    requires i < |Flat(q)|
  {
    match q
    case Cons(Nested(inner), rest) =>
      if i < |Flat(inner)| then Cons(Nested(Put(inner, i, f)), rest)
      else Cons(Nested(inner), Put(rest, i - |Flat(inner)|, f))
    case Cons(g, rest) => if i == 0 then Cons(f, rest) else Cons(g, Put(rest, i - 1, f))
  }

  /** Names without the quote character, whatever the values. */
  ghost predicate CleanNames(driver: Driver, q: Struct)
  {
    match q
    case Nil => true
    case Cons(f, rest) => CleanFieldNames(driver, f) && CleanNames(driver, rest)
  }

  ghost predicate CleanFieldNames(driver: Driver, f: Field)
  {
    match f
    case Nested(inner) => CleanNames(driver, inner)
    case Skipped(_) => true
    case Tagged(t, _) => CleanName(driver, t.table) && CleanName(driver, t.column)
    case Joined(_, inner) => CleanNames(driver, inner)
  }

  lemma {:induction false} ZeroedIsClean(driver: Driver, q: Struct)
    requires CleanNames(driver, q)
    ensures CleanStruct(driver, Zeroed(q))
    decreases q
  {
    if q.Cons? {
      ZeroedIsClean(driver, q.rest);
      match q.field
      case Nested(inner) => ZeroedIsClean(driver, inner);
      case Tagged(_, v) => assert Plain(StringOf(ZeroOf(v))) by { ZeroIsPlain(v); }
      case Joined(_, inner) => ZeroedIsClean(driver, inner);
      case _ =>
    }
  }

  lemma PrintedTypes(n: int, elems: seq<Value>)
    ensures StringOf(Num(n)) == "<int Value>" && StringOf(Stamp(n)) == "<time.Time Value>"
    ensures StringOf(List(elems)) == StringOf(NilList) == "<[]string Value>"
  {
  }

  /** What reflection prints for a value that is not a string has no wildcard in it. */
  lemma PrintedIsPlain(v: Value)
    requires !v.Str?
    ensures Plain(StringOf(v))
  {
    match v
    case Num(_) =>
    case Stamp(_) =>
    case _ =>
  }

  lemma ZeroIsPlain(v: Value)
    ensures Plain(StringOf(ZeroOf(v)))
  {
    if !v.Str? {
      PrintedIsPlain(ZeroOf(v));
    }
  }

  lemma {:induction false} ZeroedShape(q: Struct)
    ensures SameShape(q, Zeroed(q)) && IsZero(Zeroed(q))
    decreases q
  {
    if q.Cons? {
      ZeroedShape(q.rest);
      match q.field
      case Nested(inner) => ZeroedShape(inner);
      case Joined(_, inner) => ZeroedShape(inner);
      case _ =>
    }
  }

  lemma {:induction false} ZeroIsTyped(q: Struct, joins: bool)
    requires IsZero(q)
    ensures WellTyped(q, joins)
  {
    if q.Cons? {
      ZeroIsTyped(q.rest, joins);
      if q.field.Nested? {
        ZeroIsTyped(q.field.inner, joins);
      }
    }
  }

  lemma {:induction false} ZeroSetsNothing(driver: Driver, q: Struct)
    requires IsZero(q)
    ensures Settings(driver, q) == []
    ensures forall f <- Flat(q) :: FieldSettings(driver, f) == []
  {
    if q.Cons? {
      ZeroSetsNothing(driver, q.rest);
      if q.field.Nested? {
        ZeroSetsNothing(driver, q.field.inner);
      }
    }
  }

  lemma {:induction false} PutFlat(q: Struct, i: nat, f: Field)
    requires i < |Flat(q)| && !f.Nested?
    ensures Flat(Put(q, i, f)) == Flat(q)[i := f]
    decreases q
  {
    match q
    case Cons(Nested(inner), rest) =>
      if i < |Flat(inner)| {
        PutFlat(inner, i, f);
      } else {
        PutFlat(rest, i - |Flat(inner)|, f);
      }
    case Cons(g, rest) =>
      if i > 0 {
        PutFlat(rest, i - 1, f);
      }
  }

  lemma {:induction false} PutShape(p: Struct, q: Struct, i: nat, f: Field)
    requires SameShape(p, q) && i < |Flat(q)| && |Flat(p)| == |Flat(q)| && SameField(Flat(p)[i], f)
    ensures SameShape(p, Put(q, i, f))
    decreases q
  {
    match q
    case Cons(Nested(inner), rest) =>
      SameShapeFlat(p.field.inner, inner);
      SameShapeFlat(p.rest, rest);
      if i < |Flat(inner)| {
        PutShape(p.field.inner, inner, i, f);
      } else {
        PutShape(p.rest, rest, i - |Flat(inner)|, f);
      }
    case Cons(g, rest) =>
      SameShapeFlat(p.rest, rest);
      if i > 0 {
        PutShape(p.rest, rest, i - 1, f);
      }
  }

  lemma {:induction false} PutKeeps(driver: Driver, q: Struct, i: nat, f: Field, joins: bool)
    requires i < |Flat(q)| && WellTyped(q, joins) && FieldTyped(f, joins)
    requires CleanStruct(driver, q) && CleanField(driver, f)
    ensures WellTyped(Put(q, i, f), joins) && CleanStruct(driver, Put(q, i, f))
    decreases q
  {
    match q
    case Cons(Nested(inner), rest) =>
      if i < |Flat(inner)| {
        PutKeeps(driver, inner, i, f, joins);
      } else {
        PutKeeps(driver, rest, i - |Flat(inner)|, f, joins);
      }
    case Cons(g, rest) =>
      if i > 0 {
        PutKeeps(driver, rest, i - 1, f, joins);
      }
  }

  lemma {:induction false} NamesOfFlat(driver: Driver, q: Struct, f: Field)
    requires CleanNames(driver, q) && f in Flat(q)
    ensures CleanFieldNames(driver, f)
    decreases q
  {
    if f in Flat(q.rest) {
      NamesOfFlat(driver, q.rest, f);
    } else if q.field.Nested? {
      NamesOfFlat(driver, q.field.inner, f);
    }
  }

  lemma {:induction false} OneSets(driver: Driver, fs: seq<Field>, i: nat)
    requires i < |fs| && forall k :: 0 <= k < |fs| && k != i ==> FieldSettings(driver, fs[k]) == []
    ensures FlatSettings(driver, fs) == FieldSettings(driver, fs[i])
  {
    if i == 0 {
      NoneSets(driver, fs[1..]);
    } else {
      OneSets(driver, fs[1..], i - 1);
    }
  }

  lemma {:induction false} NoneSets(driver: Driver, fs: seq<Field>)
    requires forall k :: 0 <= k < |fs| ==> FieldSettings(driver, fs[k]) == []
    ensures FlatSettings(driver, fs) == []
  {
    if fs != [] {
      NoneSets(driver, fs[1..]);
    }
  }

  lemma {:induction false} TwoSet(driver: Driver, fs: seq<Field>, i: nat, j: nat)
    requires i < j < |fs| && forall k :: 0 <= k < |fs| && k != i && k != j ==> FieldSettings(driver, fs[k]) == []
    ensures FlatSettings(driver, fs) == FieldSettings(driver, fs[i]) + FieldSettings(driver, fs[j])
  {
    if i == 0 {
      OneSets(driver, fs[1..], j - 1);
    } else {
      TwoSet(driver, fs[1..], i - 1, j - 1);
    }
  }

  /** A struct of the same shape that is zero but for one field. */
  lemma WithOneField(driver: Driver, q: Struct, i: nat, f: Field, joins: bool) returns (q': Struct)
    requires CleanNames(driver, q) && i < |Flat(q)| && SameField(Flat(q)[i], f)
    requires !f.Nested? && FieldTyped(f, joins) && CleanField(driver, f)
    ensures SameShape(q, q') && WellTyped(q', joins) && CleanStruct(driver, q')
    ensures |Flat(Zeroed(q))| == |Flat(q)| && Flat(q') == Flat(Zeroed(q))[i := f]
    ensures Settings(driver, q') == FieldSettings(driver, f)
  {
    var z := Zeroed(q);
    ZeroedShape(q);
    ZeroedIsClean(driver, q);
    ZeroIsTyped(z, joins);
    SameShapeFlat(q, z);
    q' := Put(z, i, f);
    PutFlat(z, i, f);
    PutShape(q, z, i, f);
    PutKeeps(driver, z, i, f, joins);
    ZeroSetsNothing(driver, z);
    SettingsAreFlat(driver, q');
    OneSets(driver, Flat(q'), i);
  }

  /** A struct of the same shape that is zero but for two fields. */
  lemma WithTwoFields(driver: Driver, q: Struct, i: nat, f: Field, j: nat, g: Field, joins: bool)
    returns (q': Struct)
    requires CleanNames(driver, q) && i < j < |Flat(q)| && SameField(Flat(q)[i], f) && SameField(Flat(q)[j], g)
    requires !f.Nested? && FieldTyped(f, joins) && CleanField(driver, f)
    requires !g.Nested? && FieldTyped(g, joins) && CleanField(driver, g)
    ensures SameShape(q, q') && WellTyped(q', joins) && CleanStruct(driver, q')
    ensures Settings(driver, q') == FieldSettings(driver, f) + FieldSettings(driver, g)
  {
    var p := WithOneField(driver, q, i, f, joins);
    q' := Put(p, j, g);
    PutFlat(p, j, g);
    PutShape(q, p, j, g);
    PutKeeps(driver, p, j, g, joins);
    ZeroedShape(q);
    ZeroSetsNothing(driver, Zeroed(q));
    SettingsAreFlat(driver, q');
    forall k | 0 <= k < |Flat(q')| && k != i && k != j
      ensures FieldSettings(driver, Flat(q')[k]) == []
    {
      assert Flat(q')[k] == Flat(Zeroed(q))[k] && Flat(Zeroed(q))[k] in Flat(Zeroed(q));
    }
    TwoSet(driver, Flat(q'), i, j);
  }

  // ---------- Fields that clash ----------

  /** The second of two settings with one clause decides alone. */
  lemma SecondDecides(fold: char -> char, a: Setting, b: Setting, row: Row)
    requires a.Where? && b.Where? && a.clause == b.clause
    ensures LastsHold(fold, [a, b], row) <==> Holds(fold, b.clause, b.args, row)
  {
    var settings := [a, b];
    assert settings[1] == b && LastWithText(settings, 1);
    assert !LastWithText(settings, 0);
  }

  /** The setting of a field that sets a clause asks what the field asks. */
  lemma OneField(driver: Driver, fold: char -> char, t: Tag, v: Value, row: Row) returns (a: Setting)
    requires CaseRule(fold) && ClauseOf(driver, t).Some?
    requires CleanField(driver, Tagged(t, v)) && (IsPattern(t) ==> v.Str?)
    ensures ValueSettings(driver, t, v) == [a] && a.Where? && ClauseOf(driver, t) == Some(a.clause)
    ensures CleanClause(driver, a.clause) && OpFits(driver, a.clause.op)
    ensures SettingHolds(fold, a, row) <==> Wants(fold, t, v, row)
  {
    ValueSetsItsClause(driver, t, v);
    a := ValueSettings(driver, t, v)[0];
    ValueSettingsMean(driver, fold, t, v, row);
    OneHolds(fold, a, row);
  }

  /** The settings of two fields with one clause: together they ask for both, but the last one decides. */
  lemma PairOfFields(driver: Driver, fold: char -> char, t: Tag, v: Value, u: Tag, w: Value, row: Row)
    returns (a: Setting, b: Setting)
    requires CaseRule(fold) && ClauseOf(driver, t).Some? && ClauseOf(driver, t) == ClauseOf(driver, u)
    requires CleanField(driver, Tagged(t, v)) && CleanField(driver, Tagged(u, w))
    requires (IsPattern(t) ==> v.Str?) && (IsPattern(u) ==> w.Str?)
    ensures ValueSettings(driver, t, v) == [a] && ValueSettings(driver, u, w) == [b] && a.Where? && b.Where?
    ensures CleanSettings(driver, [a, b])
    ensures LastsHold(fold, [a, b], row) <==> Wants(fold, u, w, row)
    ensures AllHold(fold, [a, b], row) <==> Wants(fold, t, v, row) && Wants(fold, u, w, row)
  {
    a := OneField(driver, fold, t, v, row);
    b := OneField(driver, fold, u, w, row);
    SecondDecides(fold, a, b, row);
  }

  lemma TwoFieldSettings(driver: Driver, t: Tag, v: Value, u: Tag, w: Value)
    requires !IsZeroValue(v) && !IsZeroValue(w)
    ensures Settings(driver, Cons(Tagged(t, v), Cons(Tagged(u, w), Nil)))
            == ValueSettings(driver, t, v) + ValueSettings(driver, u, w)
  {
    assert Settings(driver, Cons(Tagged(u, w), Nil)) == ValueSettings(driver, u, w) + Settings(driver, Nil);
  }

  lemma TwoFieldsMatch(fold: char -> char, t: Tag, v: Value, u: Tag, w: Value, row: Row)
    requires !IsZeroValue(v) && !IsZeroValue(w)
    ensures Matches(fold, Cons(Tagged(t, v), Cons(Tagged(u, w), Nil)), row)
            <==> Wants(fold, t, v, row) && Wants(fold, u, w, row)
  {
    assert Matches(fold, Nil, row);
    assert Matches(fold, Cons(Tagged(u, w), Nil), row) <==> FieldMatches(fold, Tagged(u, w), row);
  }

  /** A condition without joins. */
  lemma NoJoinSelects(driver: Driver, fold: char -> char, settings: seq<Setting>, row: Row)
    requires CleanSettings(driver, settings) && forall s <- settings :: !s.JoinOn?
    ensures Selects(driver, fold, settings, row) <==> LastsHold(fold, settings, row)
  {
    SelectionKeepsLastExactly(driver, fold, settings, row);
  }

  /**
   Two fields that set one clause: the condition asks only for the second, although the search asks
   for both.
   */
  lemma SecondFieldDecides(
      driver: Driver, fold: char -> char, t: Tag, v: Value, u: Tag, w: Value, row: Row)
    requires CaseRule(fold) && ClauseOf(driver, t).Some? && ClauseOf(driver, t) == ClauseOf(driver, u)
    requires !IsZeroValue(v) && !IsZeroValue(w)
    requires CleanField(driver, Tagged(t, v)) && CleanField(driver, Tagged(u, w))
    requires (IsPattern(t) ==> v.Str?) && (IsPattern(u) ==> w.Str?)
    ensures var q := Cons(Tagged(t, v), Cons(Tagged(u, w), Nil));
            && (Selects(driver, fold, Settings(driver, q), row) <==> Wants(fold, u, w, row))
            && (Matches(fold, q, row) <==> Wants(fold, t, v, row) && Wants(fold, u, w, row))
  {
    var q := Cons(Tagged(t, v), Cons(Tagged(u, w), Nil));
    var a, b := PairOfFields(driver, fold, t, v, u, w, row);
    TwoFieldSettings(driver, t, v, u, w);
    assert Settings(driver, q) == [a, b];
    NoJoinSelects(driver, fold, [a, b], row);
    TwoFieldsMatch(fold, t, v, u, w, row);
  }

  function Same(c: char): char
  {
    c
  }

  lemma SameFolds(s: string)
    ensures CaseRule(Same) && Folded(Same, s) == s
  {
  }

  /** The i-th of three values of a type, in ascending order. */
  function Pick(v: Value, i: nat): Value
    requires i < 3
  {
    match v
    case Str(_) => Str(if i == 0 then "a" else if i == 1 then "b" else "c")
    case Num(_) => Num(1 + i)
    case Stamp(_) => Stamp(1 + i)
    case _ => List([Num(1 + i)])
  }

  lemma PickFits(v: Value, i: nat)
    requires i < 3
    ensures SameType(v, Pick(v, i)) && !IsZeroValue(Pick(v, i)) && Plain(StringOf(Pick(v, i)))
  {
    if !v.Str? {
      PrintedIsPlain(Pick(v, i));
    }
  }

  lemma PicksCompare(v: Value, i: nat, w: Value, j: nat)
    requires i < 3 && j < 3 && i != j
    ensures Pick(v, i) != Pick(w, j)
    ensures !Slice(w) && SameType(v, w) ==> (ValueLess(Pick(v, i), Pick(w, j)) <==> i < j)
    ensures !SameType(v, w) ==> !ValueLess(Pick(v, i), Pick(w, j)) && !ValueLess(Pick(w, j), Pick(v, i))
  {
    assert "a"[0] == 'a' && "b"[0] == 'b' && "c"[0] == 'c';
    assert v.List? ==> Pick(v, i).elems[0] == Num(1 + i);
    assert w.List? ==> Pick(w, j).elems[0] == Num(1 + j);
  }

  lemma PatternsTellApart(t: Tag, u: Tag, row: Row)
    requires IsPattern(t) && IsPattern(u) && t.table == u.table && t.column == u.column
    requires row == map[(t.table, t.column) := Str("b")]
    ensures CaseRule(Same) && Wants(Same, u, Str("b"), row) && !Wants(Same, t, Str("a"), row)
  {
    SameFolds("a");
    SameFolds("b");
    assert "b"[0..] == "b" && "b"[1..] == "" && "a"[0] != "b"[0];
    assert "b" <= "b"[0..];
  }

  lemma GreaterTellsApart(t: Tag, x: Value, y: Value, row: Row)
    requires t.kind.GreaterEq? || (t.kind.Greater? && !Slice(y))
    requires row == map[(t.table, t.column) := Pick(y, if Slice(y) then 0 else 1)]
    ensures Wants(Same, t, Pick(y, 0), row) && !Wants(Same, t, Pick(x, 2), row)
  {
    PicksCompare(x, 2, y, 1);
    PicksCompare(x, 2, y, 0);
    PicksCompare(y, 0, y, 1);
  }

  lemma LessTellsApart(t: Tag, x: Value, y: Value, row: Row)
    requires t.kind.LessEq? || (t.kind.Less? && !Slice(y))
    requires row == map[(t.table, t.column) := Pick(y, if Slice(y) then 2 else 1)]
    ensures Wants(Same, t, Pick(y, 2), row) && !Wants(Same, t, Pick(x, 0), row)
  {
    PicksCompare(y, 1, x, 0);
    PicksCompare(y, 2, x, 0);
    PicksCompare(y, 1, y, 2);
  }

  lemma EqualTellsApart(t: Tag, x: Value, y: Value, row: Row)
    requires t.kind.Exact? || t.kind.In?
    requires row == map[(t.table, t.column) := if t.kind.In? && Slice(y) then Num(2) else Pick(y, 1)]
    ensures Wants(Same, t, Pick(y, 1), row) && !Wants(Same, t, Pick(x, 0), row)
  {
    PicksCompare(x, 0, y, 1);
  }

  /** Values of their types at which fields that clash ask for different rows. */
  lemma ClashValues(driver: Driver, f: Field, g: Field) returns (v: Value, w: Value, row: Row)
    requires Clash(driver, f, g) && PatternOnString(f) && PatternOnString(g)
    ensures SameType(f.value, v) && SameType(g.value, w) && !IsZeroValue(v) && !IsZeroValue(w)
    ensures Plain(StringOf(v)) && Plain(StringOf(w))
    ensures Wants(Same, g.tag, w, row) && !Wants(Same, f.tag, v, row)
  {
    ClashingTags(driver, f, g);
    var t, x, y := f.tag, f.value, g.value;
    var place := (t.table, t.column);
    var i, j := 0, 1;
    if IsPattern(t) {
      row := map[place := Str("b")];
      PatternsTellApart(t, g.tag, row);
    } else if t.kind.Greater? || t.kind.GreaterEq? {
      i, j := 2, 0;
      row := map[place := Pick(y, if Slice(y) then 0 else 1)];
      GreaterTellsApart(t, x, y, row);
      SamePlace(t, g.tag, Pick(y, 0), row);
    } else if t.kind.Less? || t.kind.LessEq? {
      j := 2;
      row := map[place := Pick(y, if Slice(y) then 2 else 1)];
      LessTellsApart(t, x, y, row);
      SamePlace(t, g.tag, Pick(y, 2), row);
    } else {
      row := map[place := if t.kind.In? && Slice(y) then Num(2) else Pick(y, 1)];
      EqualTellsApart(t, x, y, row);
      SamePlace(t, g.tag, Pick(y, 1), row);
    }
    PickFits(x, i);
    PickFits(y, j);
    v, w := Pick(x, i), Pick(y, j);
  }

  /** What a field asks depends on its column and kind. */
  lemma SamePlace(t: Tag, u: Tag, v: Value, row: Row)
    requires t.table == u.table && t.column == u.column && t.kind == u.kind
    ensures Wants(Same, t, v, row) <==> Wants(Same, u, v, row)
  {
  }

  // ---------- Patterns on other types than strings ----------

  /** A pattern on a field that is not a string looks for what reflection prints instead of the value. */
  predicate PatternOnString(f: Field)
  {
    f.Tagged? && IsPattern(f.tag) ==> f.value.Str?
  }

  ghost predicate ShapeStrings(q: Struct)
  {
    forall f <- Flat(q) ::
      PatternOnString(f) && (ActiveJoin(f) ==> forall g <- Flat(f.inner) :: PatternOnString(g))
  }

  lemma PrintedValueIsFound(driver: Driver, t: Tag, v: Value, row: Row)
    requires IsPattern(t) && !v.Str?
    requires row == map[(t.table, t.column) := Str(StringOf(v))]
    ensures SettingHolds(Same, ValueSettings(driver, t, v)[0], row) && !Wants(Same, t, v, row)
  {
    var text := StringOf(v);
    PrintedIsPlain(v);
    SameFolds(text);
    SameFolds(text + "%");
    SameFolds("%" + text);
    SameFolds("%" + text + "%");
    PatternsMean(text, text);
    assert text <= text[0..];
  }

  /** A pattern field's setting asks what the field does exactly when the field is a string. */
  lemma PatternMeansExactly(driver: Driver, t: Tag, v: Value)
    requires IsPattern(t) && Plain(StringOf(v))
    ensures (forall row :: SettingHolds(Same, ValueSettings(driver, t, v)[0], row) <==> Wants(Same, t, v, row))
            <==> v.Str?
  {
    if v.Str? {
      SameFolds("");
      forall row
        ensures SettingHolds(Same, ValueSettings(driver, t, v)[0], row) <==> Wants(Same, t, v, row)
      {
        PatternSettingMeans(driver, Same, t, v, row);
      }
    } else {
      PrintedValueIsFound(driver, t, v, map[(t.table, t.column) := Str(StringOf(v))]);
    }
  }

  lemma NoPrintedTypeInFive()
    ensures !Like("%<int Value>%", "5")
  {
    PrintedIsPlain(Num(5));
    PatternsMean("<int Value>", "5");
    assert "%" + "<int Value>" + "%" == "%<int Value>%";
    assert !Substring("<int Value>", "5");
  }

  /** A contains field with the number 5 admits the text "<int Value>", but neither the text "5" nor the number. */
  lemma PatternOnNumber(driver: Driver, t: Tag, cell: Value)
    requires t.kind.Contains? && cell in [Str("<int Value>"), Str("5"), Num(5)]
    ensures SettingHolds(Same, ValueSettings(driver, t, Num(5))[0], map[(t.table, t.column) := cell])
            <==> cell == Str("<int Value>")
  {
    if cell == Str("<int Value>") {
      PrintedValueIsFound(driver, t, Num(5), map[(t.table, t.column) := cell]);
    } else {
      NoPrintedTypeInFive();
      SameFolds("5");
      SameFolds("%<int Value>%");
      assert "%" + "<int Value>" + "%" == "%<int Value>%";
    }
  }

  lemma {:induction false} FlatStrings(q: Struct)
    requires forall f <- Flat(q) :: StringField(f)
    ensures StringPatterns(q)
  {
    if q.Cons? {
      assert forall f <- Flat(q.rest) :: f in Flat(q);
      FlatStrings(q.rest);
      if q.field.Nested? {
        assert forall f <- Flat(q.field.inner) :: f in Flat(q);
        FlatStrings(q.field.inner);
      } else {
        assert q.field in Flat(q);
      }
    }
  }

  lemma {:induction false} FlatTyped(q: Struct, joins: bool)
    requires WellTyped(q, joins)
    ensures forall f <- Flat(q) :: FieldTyped(f, joins)
  {
    if q.Cons? {
      FlatTyped(q.rest, joins);
      if q.field.Nested? {
        FlatTyped(q.field.inner, joins);
      }
    }
  }

  lemma ShapeStringsMean(q: Struct, joins: bool)
    requires WellTyped(q, joins) && ShapeStrings(q)
    ensures StringPatterns(q)
  {
    FlatTyped(q, joins);
    NoNestedInFlat(q);
    forall f <- Flat(q)
      ensures StringField(f)
    {
      if f.Joined? && !IsZero(f.inner) && IsJoin(f.tag) {
        FlatTyped(f.inner, false);
        NoNestedInFlat(f.inner);
        forall g <- Flat(f.inner)
          ensures StringField(g)
        {
        }
        FlatStrings(f.inner);
      }
    }
    FlatStrings(q);
  }

  lemma SameShapeStrings(q: Struct, q': Struct)
    requires SameShape(q, q') && ShapeStrings(q)
    ensures ShapeStrings(q')
  {
    SameShapeFlat(q, q');
    forall f <- Flat(q')
      ensures PatternOnString(f) && (ActiveJoin(f) ==> forall g <- Flat(f.inner) :: PatternOnString(g))
    {
      var i :| 0 <= i < |Flat(q')| && Flat(q')[i] == f;
      assert Flat(q)[i] in Flat(q);
      if ActiveJoin(f) {
        SameShapeOnStrings(Flat(q)[i].inner, f.inner);
      }
    }
  }

  lemma SameShapeOnStrings(q: Struct, q': Struct)
    requires SameShape(q, q') && forall f <- Flat(q) :: PatternOnString(f)
    ensures forall f <- Flat(q') :: PatternOnString(f)
  {
    SameShapeFlat(q, q');
    forall f <- Flat(q')
      ensures PatternOnString(f)
    {
      var i :| 0 <= i < |Flat(q')| && Flat(q')[i] == f;
      assert Flat(q)[i] in Flat(q);
    }
  }

  lemma {:induction false} MatchesFlat(fold: char -> char, q: Struct, f: Field, row: Row)
    requires Matches(fold, q, row) && f in Flat(q)
    ensures FieldMatches(fold, f, row)
  {
    if f in Flat(q.rest) {
      MatchesFlat(fold, q.rest, f, row);
    } else if q.field.Nested? {
      MatchesFlat(fold, q.field.inner, f, row);
    }
  }

  /** A struct of the shape in which only a pattern on another type is not zero, and a row it should not admit. */
  lemma PrintedStruct(driver: Driver, q: Struct, f: Field, joins: bool)
    returns (q': Struct, a: Setting, row: Row)
    requires CleanNames(driver, q) && f in Flat(q) && !PatternOnString(f)
    ensures SameShape(q, q') && WellTyped(q', joins) && CleanStruct(driver, q') && Settings(driver, q') == [a]
    ensures CleanSettings(driver, [a]) && a.Where? && CaseRule(Same)
    ensures LastsHold(Same, [a], row) && !Matches(Same, q', row)
  {
    var i :| 0 <= i < |Flat(q)| && Flat(q)[i] == f;
    NamesOfFlat(driver, q, f);
    var t, v := f.tag, Pick(f.value, 0);
    PickFits(f.value, 0);
    row := map[(t.table, t.column) := Str(StringOf(v))];
    PrintedValueIsFound(driver, t, v, row);
    SameFolds("");
    a := ValueSettings(driver, t, v)[0];
    assert FieldSettings(driver, Tagged(t, v)) == [a];
    q' := WithOneField(driver, q, i, Tagged(t, v), joins);
    assert Flat(q')[i] == Tagged(t, v);
    if Matches(Same, q', row) {
      MatchesFlat(Same, q', Tagged(t, v), row);
    }
  }

  // ---------- Which shapes mean the search ----------

  /** Whatever the values of a struct's fields, its condition selects the rows the search means. */
  ghost predicate AlwaysMeansSearch(driver: Driver, q: Struct)
  {
    forall q': Struct, fold: char -> char, row: Row ::
      SameShape(q, q') && WellTyped(q', true) && CleanStruct(driver, q') && CaseRule(fold) ==>
        (Selects(driver, fold, Settings(driver, q'), row) <==> Matches(fold, q', row))
  }

  /** Values for two fields that clash, and a row that only the first one rules out. */
  lemma ClashingFields(driver: Driver, f: Field, g: Field)
    returns (f': Field, g': Field, a: Setting, b: Setting, row: Row)
    requires Clash(driver, f, g) && PatternOnString(f) && PatternOnString(g)
    requires CleanFieldNames(driver, f) && CleanFieldNames(driver, g)
    ensures SameField(f, f') && CleanField(driver, f') && FieldTyped(f', true) && FieldTyped(f', false)
    ensures SameField(g, g') && CleanField(driver, g') && FieldTyped(g', true) && FieldTyped(g', false)
    ensures FieldSettings(driver, f') == [a] && FieldSettings(driver, g') == [b]
    ensures a.Where? && b.Where? && CleanSettings(driver, [a, b]) && CaseRule(Same)
    ensures LastsHold(Same, [a, b], row) && !AllHold(Same, [a, b], row)
  {
    var v, w, r := ClashValues(driver, f, g);
    SameFolds("");
    f', g', row := Tagged(f.tag, v), Tagged(g.tag, w), r;
    a, b := PairOfFields(driver, Same, f.tag, v, g.tag, w, row);
  }

  /** The same fields in a struct of the shape in which everything else is zero. */
  lemma ClashingStruct(driver: Driver, q: Struct, i: nat, j: nat, joins: bool)
    returns (q': Struct, a: Setting, b: Setting, row: Row)
    requires CleanNames(driver, q) && i < j < |Flat(q)| && Clash(driver, Flat(q)[i], Flat(q)[j])
    requires PatternOnString(Flat(q)[i]) && PatternOnString(Flat(q)[j])
    ensures SameShape(q, q') && WellTyped(q', joins) && CleanStruct(driver, q') && Settings(driver, q') == [a, b]
    ensures a.Where? && b.Where? && CleanSettings(driver, [a, b]) && CaseRule(Same)
    ensures LastsHold(Same, [a, b], row) && !AllHold(Same, [a, b], row)
  {
    NamesOfFlat(driver, q, Flat(q)[i]);
    NamesOfFlat(driver, q, Flat(q)[j]);
    var f', g', a', b', row' := ClashingFields(driver, Flat(q)[i], Flat(q)[j]);
    a, b, row := a', b', row';
    q' := WithTwoFields(driver, q, i, f', j, g', joins);
  }

  /** A row that the condition of one struct of the shape lets through, though the search does not mean it. */
  lemma Counterexample(driver: Driver, q: Struct, q': Struct, row: Row)
    requires SameShape(q, q') && WellTyped(q', true) && CleanStruct(driver, q') && CaseRule(Same)
    requires Selects(driver, Same, Settings(driver, q'), row) && !Matches(Same, q', row)
    ensures !AlwaysMeansSearch(driver, q)
  {
  }

  /** On strings it is enough that not all settings hold. */
  lemma NotMeant(driver: Driver, q: Struct, q': Struct, row: Row)
    requires SameShape(q, q') && WellTyped(q', true) && CleanStruct(driver, q') && CaseRule(Same) && ShapeStrings(q)
    requires !AllHold(Same, Settings(driver, q'), row)
    ensures !Matches(Same, q', row)
  {
    SameShapeStrings(q, q');
    ShapeStringsMean(q', true);
    SettingsMean(driver, Same, q', true, row);
  }

  lemma ClashBreaks(driver: Driver, q: Struct)
    requires CleanNames(driver, q) && ShapeStrings(q) && !ClashFree(driver, q)
    ensures !AlwaysMeansSearch(driver, q)
  {
    var i, j :| 0 <= i < j < |Flat(q)| && Clash(driver, Flat(q)[i], Flat(q)[j]);
    assert Flat(q)[i] in Flat(q) && Flat(q)[j] in Flat(q);
    var q', a, b, row := ClashingStruct(driver, q, i, j, true);
    NoJoinSelects(driver, Same, [a, b], row);
    NotMeant(driver, q, q', row);
    Counterexample(driver, q, q', row);
  }

  lemma PrintedBreaks(driver: Driver, q: Struct, f: Field)
    requires CleanNames(driver, q) && f in Flat(q) && !PatternOnString(f)
    ensures !AlwaysMeansSearch(driver, q)
  {
    var q', a, row := PrintedStruct(driver, q, f, true);
    NoJoinSelects(driver, Same, [a], row);
    Counterexample(driver, q, q', row);
  }

  /** A condition with nothing but a join. */
  lemma OnlyJoin(driver: Driver, fold: char -> char, kind: Kind, on: string, inner: seq<Setting>, row: Row)
    requires CleanSettings(driver, inner) && forall s <- inner :: !s.JoinOn?
    ensures Selects(driver, fold, [JoinOn(kind, on, inner)], row) <==> LastsHold(fold, inner, row)
    ensures AllHold(fold, [JoinOn(kind, on, inner)], row) <==> AllHold(fold, inner, row)
  {
    var join := JoinOn(kind, on, inner);
    SelectionKeepsLastExactly(driver, fold, [join], row);
    assert join in [join];
    OneHolds(fold, join, row);
  }

  /** The struct that is zero but for one join. */
  lemma WithOneJoin(driver: Driver, q: Struct, k: nat, inner: Struct) returns (q': Struct, on: string)
    requires CleanNames(driver, q) && k < |Flat(q)| && ActiveJoin(Flat(q)[k]) && SameShape(Flat(q)[k].inner, inner)
    requires WellTyped(inner, false) && CleanStruct(driver, inner) && Settings(driver, inner) != []
    ensures SameShape(q, q') && WellTyped(q', true) && CleanStruct(driver, q')
    ensures Settings(driver, q') == [JoinOn(Flat(q)[k].tag.kind, on, Settings(driver, inner))]
    ensures Joined(Flat(q)[k].tag, inner) in Flat(q') && !IsZero(inner)
  {
    var t := Flat(q)[k].tag;
    if IsZero(inner) {
      ZeroSetsNothing(driver, inner);
    }
    on := JoinText(driver, t);
    q' := WithOneField(driver, q, k, Joined(t, inner), true);
    assert Flat(q')[k] == Joined(t, inner);
  }

  lemma ClashInJoinBreaks(driver: Driver, q: Struct, f: Field)
    requires CleanNames(driver, q) && ShapeStrings(q)
    requires f in Flat(q) && ActiveJoin(f) && !ClashFree(driver, f.inner)
    ensures !AlwaysMeansSearch(driver, q)
  {
    var k :| 0 <= k < |Flat(q)| && Flat(q)[k] == f;
    NamesOfFlat(driver, q, f);
    var i, j :| 0 <= i < j < |Flat(f.inner)| && Clash(driver, Flat(f.inner)[i], Flat(f.inner)[j]);
    assert Flat(f.inner)[i] in Flat(f.inner) && Flat(f.inner)[j] in Flat(f.inner);
    var inner, a, b, row := ClashingStruct(driver, f.inner, i, j, false);
    var q', on := WithOneJoin(driver, q, k, inner);
    OnlyJoin(driver, Same, f.tag.kind, on, [a, b], row);
    NotMeant(driver, q, q', row);
    Counterexample(driver, q, q', row);
  }

  lemma PrintedInJoinBreaks(driver: Driver, q: Struct, f: Field, g: Field)
    requires CleanNames(driver, q) && f in Flat(q) && ActiveJoin(f) && g in Flat(f.inner) && !PatternOnString(g)
    ensures !AlwaysMeansSearch(driver, q)
  {
    var k :| 0 <= k < |Flat(q)| && Flat(q)[k] == f;
    NamesOfFlat(driver, q, f);
    var inner, a, row := PrintedStruct(driver, f.inner, g, false);
    var q', on := WithOneJoin(driver, q, k, inner);
    OnlyJoin(driver, Same, f.tag.kind, on, [a], row);
    if Matches(Same, q', row) {
      MatchesFlat(Same, q', Joined(f.tag, inner), row);
    }
    Counterexample(driver, q, q', row);
  }

  /** One direction, for all values at once. */
  lemma ClashFreeMeansSearch(driver: Driver, q: Struct)
    requires ShapeClashFree(driver, q) && ShapeStrings(q)
    ensures AlwaysMeansSearch(driver, q)
  {
    forall q': Struct, fold: char -> char, row: Row
      | SameShape(q, q') && WellTyped(q', true) && CleanStruct(driver, q') && CaseRule(fold)
      ensures Selects(driver, fold, Settings(driver, q'), row) <==> Matches(fold, q', row)
    {
      SameShapeAllClashFree(driver, q, q');
      ShapeClashFreeAgrees(driver, q');
      SameShapeStrings(q, q');
      ShapeStringsMean(q', true);
      SearchSelectsMatches(driver, fold, q', row);
    }
  }

  /**
   A struct's condition means the search for all values of its fields exactly when its patterns are on
   strings and no two fields of one condition, other than isnull, set the same clause.
   */
  lemma MeansSearchExactly(driver: Driver, q: Struct)
    requires CleanNames(driver, q)
    ensures AlwaysMeansSearch(driver, q) <==> ShapeStrings(q) && ShapeClashFree(driver, q)
  {
    if f :| f in Flat(q) && !PatternOnString(f) {
      PrintedBreaks(driver, q, f);
    } else if f, g :| f in Flat(q) && ActiveJoin(f) && g in Flat(f.inner) && !PatternOnString(g) {
      PrintedInJoinBreaks(driver, q, f, g);
    } else if !ClashFree(driver, q) {
      ClashBreaks(driver, q);
    } else if f :| f in Flat(q) && ActiveJoin(f) && !ClashFree(driver, f.inner) {
      ClashInJoinBreaks(driver, q, f);
    } else {
      ClashFreeMeansSearch(driver, q);
    }
  }
}
