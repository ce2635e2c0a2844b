/**
 The text of a search tag: entries between semicolons, an entry's key and values between colons.
 A struct as the program declares it carries such texts; Parsed reads them all.
 */
module SearchTag {
  import opened Text
  import opened SearchModel

  type Entry = seq<string>

  function EntriesOf(parts: seq<string>): seq<Entry>
  {
    seq(|parts|, i requires 0 <= i < |parts| => Split(parts[i], ':'))
  }

  /** A tag's text as the entries the loop visits. */
  function Entries(tag: string): seq<Entry>
  {
    EntriesOf(Split(tag, ';'))
  }

  function PartsOf(entries: seq<Entry>): seq<string>
  {
    seq(|entries|, i requires 0 <= i < |entries| => Join(entries[i], ":"))
  }

  function TextOf(entries: seq<Entry>): string
  {
    Join(PartsOf(entries), ";")
  }

  function KindOf(name: string): Kind
  {
    match name
    case "exact" | "iexact" => Exact
    case "contains" | "icontains" => Contains
    case "startswith" | "istartswith" => StartsWith
    case "endswith" | "iendswith" => EndsWith
    case "gt" => Greater
    case "gte" => GreaterEq
    case "lt" => Less
    case "lte" => LessEq
    case "in" => In
    case "isnull" => IsNull
    case "order" => Order
    case "left" => LeftJoin
    case "inner" => InnerJoin
    case _ => Other
  }

  /** The values of the last entry that has the key and a value. */
  function LastValues(entries: seq<Entry>, key: string): seq<string>
  {
    if entries == [] then []
    else
      var last := entries[|entries| - 1];
      if |last| > 1 && last[0] == key then last[1..] else LastValues(entries[..|entries| - 1], key)
  }

  function FirstOf(values: seq<string>): string
  {
    if values == [] then "" else values[0]
  }

  function ReadTag(entries: seq<Entry>): Tag
  {
    Tag(KindOf(FirstOf(LastValues(entries, "type"))), FirstOf(LastValues(entries, "column")),
        FirstOf(LastValues(entries, "table")), LastValues(entries, "on"), FirstOf(LastValues(entries, "join")))
  }

  method MakeTag(tag: string) returns (t: Tag)
    ensures t == ReadTag(Entries(tag))
  {
    var tags := Split(tag, ';');
    var kind, column, table, on, join := "", "", "", [], "";
    for i := 0 to |tags|
      invariant kind == FirstOf(LastValues(EntriesOf(tags)[..i], "type"))
      invariant column == FirstOf(LastValues(EntriesOf(tags)[..i], "column"))
      invariant table == FirstOf(LastValues(EntriesOf(tags)[..i], "table"))
      invariant on == LastValues(EntriesOf(tags)[..i], "on")
      invariant join == FirstOf(LastValues(EntriesOf(tags)[..i], "join"))
    {
      var ts := Split(tags[i], ':');
      assert EntriesOf(tags)[..i + 1][..i] == EntriesOf(tags)[..i];
      if |ts| > 1 {
        match ts[0]
        case "type" => kind := ts[1];
        case "column" => column := ts[1];
        case "table" => table := ts[1];
        case "on" => on := ts[1..];
        case "join" => join := ts[1];
        case _ =>
      }
    }
    assert EntriesOf(tags)[..|tags|] == EntriesOf(tags);
    t := Tag(KindOf(kind), column, table, on, join);
  }

  ghost predicate CleanEntry(entry: Entry)
  {
    entry != [] && forall piece <- entry :: Free(piece, ';') && Free(piece, ':')
  }

  lemma {:induction false} JoinIsFree(parts: seq<string>, sep: string, c: char)
    requires Free(sep, c) && forall p <- parts :: Free(p, c)
    ensures Free(Join(parts, sep), c)
  {
    if |parts| > 0 {
      assert parts[0] in parts;
      JoinIsFree(parts[1..], sep, c);
    }
  }

  /** Every tag text is the text of its entries, and every list of clean entries is read back from its text. */
  lemma EntriesAndText(tag: string, entries: seq<Entry>)
    ensures TextOf(Entries(tag)) == tag
    ensures entries != [] && (forall e <- entries :: CleanEntry(e)) ==> Entries(TextOf(entries)) == entries
  {
    var parts := Split(tag, ';');
    forall i | 0 <= i < |parts|
      ensures Join(Split(parts[i], ':'), ":") == parts[i]
    {
      JoinSplit(parts[i], ':');
    }
    assert PartsOf(EntriesOf(parts)) == parts;
    JoinSplit(tag, ';');
    if entries != [] && forall e <- entries :: CleanEntry(e) {
      forall i | 0 <= i < |entries|
        ensures Free(PartsOf(entries)[i], ';') && Split(PartsOf(entries)[i], ':') == entries[i]
      {
        assert CleanEntry(entries[i]);
        JoinIsFree(entries[i], ":", ';');
        SplitJoin(entries[i], ':');
      }
      SplitJoin(PartsOf(entries), ';');
      assert EntriesOf(PartsOf(entries)) == entries;
    }
  }

  ghost predicate Gives(entry: Entry, key: string)
  {
    |entry| > 1 && entry[0] == key
  }

  /** A key's values are those of exactly the last entry that gives it any; without one there are none. */
  lemma {:induction false} LastEntryDecides(entries: seq<Entry>, key: string, i: nat)
    requires i < |entries| && Gives(entries[i], key)
    requires forall j :: i < j < |entries| ==> !Gives(entries[j], key)
    ensures LastValues(entries, key) == entries[i][1..] != []
  {
    if i < |entries| - 1 {
      LastEntryDecides(entries[..|entries| - 1], key, i);
    }
  }

  lemma {:induction false} NoEntryNoValues(entries: seq<Entry>, key: string)
    ensures LastValues(entries, key) == [] <==> forall e <- entries :: !Gives(e, key)
  {
    if entries != [] {
      var front, last := entries[..|entries| - 1], entries[|entries| - 1];
      NoEntryNoValues(front, key);
      assert forall e :: e in entries <==> e in front || e == last by {
        assert entries == front + [last];
      }
      assert Gives(last, key) ==> last[1..] != [];
    }
  }

  // ---------- Structs with tag texts ----------

  datatype Source = End | Then(field: SourceField, rest: Source)

  /** A field without a search tag is a struct; a tagged field is a value or a struct. */
  datatype SourceField =
    | Untagged(inner: Source)
    | TagText(tag: string, value: Value)
    | TagTextOnStruct(tag: string, inner: Source)

  const SKIP := "-"

  predicate SourceIsZero(q: Source)
  {
    match q
    case End => true
    case Then(Untagged(inner), rest) => SourceIsZero(inner) && SourceIsZero(rest)
    case Then(TagText(_, v), rest) => IsZeroValue(v) && SourceIsZero(rest)
    case Then(TagTextOnStruct(_, inner), rest) => SourceIsZero(inner) && SourceIsZero(rest)
  }

  function Parsed(q: Source): Struct
  {
    match q
    case End => Nil
    case Then(f, rest) => Cons(ParsedField(f), Parsed(rest))
  }

  function ParsedField(f: SourceField): Field
  {
    match f
    case Untagged(inner) => Nested(Parsed(inner))
    case TagText(text, v) => if text == SKIP then Skipped(IsZeroValue(v)) else Tagged(ReadTag(Entries(text)), v)
    case TagTextOnStruct(text, inner) =>
      if text == SKIP then Skipped(SourceIsZero(inner)) else Joined(ReadTag(Entries(text)), Parsed(inner))
  }

  /** Reading the tags keeps what is zero, skipped fields included. */
  lemma {:induction false} ParsedIsZero(q: Source)
    ensures IsZero(Parsed(q)) <==> SourceIsZero(q)
  {
    match q
    case End =>
    case Then(Untagged(inner), rest) =>
      ParsedIsZero(inner);
      ParsedIsZero(rest);
    case Then(TagText(_, _), rest) => ParsedIsZero(rest);
    case Then(TagTextOnStruct(_, inner), rest) =>
      ParsedIsZero(inner);
      ParsedIsZero(rest);
  }
}
