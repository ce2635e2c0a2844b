/** Letters, words and the two splitters behind the name converters, over ASCII text. */
module NameText {
  import opened Text

  predicate IsUpper(c: char)
  {
    'A' <= c <= 'Z'
  }

  predicate IsLower(c: char)
  {
    'a' <= c <= 'z'
  }

  predicate IsDigit(c: char)
  {
    '0' <= c <= '9'
  }

  function ToLower(c: char): char
  {
    if IsUpper(c) then c + 32 as char else c
  }

  function ToUpper(c: char): char
  {
    if IsLower(c) then c - 32 as char else c
  }

  function Lower(s: string): string
  {
    seq(|s|, i requires 0 <= i < |s| => ToLower(s[i]))
  }

  function Upper(s: string): string
  {
    seq(|s|, i requires 0 <= i < |s| => ToUpper(s[i]))
  }

  lemma CharactersByKind(c: char)
    ensures IsDigit(c) <==> c in "0123456789"
    ensures IsUpper(c) <==> 65 <= c as int <= 90
    ensures IsLower(c) <==> 97 <= c as int <= 122
  {
  }

  /** The letters are paired in the order of the alphabet; everything else has no case. */
  lemma LettersPair(c: char)
    ensures ToLower(c) == if 'A' <= c <= 'Z' then (c as int - 'A' as int + 'a' as int) as char else c
    ensures ToUpper(c) == if 'a' <= c <= 'z' then (c as int - 'a' as int + 'A' as int) as char else c
  {
  }

  /** strings.TrimSpace leaves nothing. */
  predicate Blank(s: string)
  {
    forall c <- s :: '\t' <= c <= '\r' || c == ' '
  }

  lemma BlankExactly(s: string)
    ensures Blank(s) <==>
              forall c <- s :: c == ' ' || c == '\t' || c == '\n' || c == '\U{0B}' || c == '\U{0C}' || c == '\r'
  {
  }

  /** cases.Title on a single word; a blank text is its own title. */
  function Title(s: string): string
  {
    if s == "" then "" else [ToUpper(s[0])] + Lower(s[1..])
  }

  /** Letter by letter: the first in upper case, the others in lower case. */
  lemma TitleByLetter(s: string, i: nat)
    requires i < |s|
    ensures |Title(s)| == |Lower(s)| == |Upper(s)| == |s|
    ensures Title(s)[i] == if i == 0 then ToUpper(s[i]) else ToLower(s[i])
    ensures Lower(s)[i] == ToLower(s[i]) && Upper(s)[i] == ToUpper(s[i])
  {
    if i > 0 {
      assert Title(s)[i] == Lower(s[1..])[i - 1] == ToLower(s[1..][i - 1]);
    }
  }

  // ---------- Splitting ----------

  /** What a character does to the word being collected: joins it, ends it, or ends it and starts the next. */
  datatype Role = Inside | Cut | Start

  function Flush(buffer: string): seq<string>
  {
    if buffer == "" then [] else [buffer]
  }

  function SplitFrom(buffer: string, s: string, role: char -> Role): seq<string>
    decreases |s|
  {
    if s == "" then Flush(buffer)
    else match role(s[0])
      case Inside => SplitFrom(buffer + [s[0]], s[1..], role)
      case Cut => Flush(buffer) + SplitFrom("", s[1..], role)
      case Start => Flush(buffer) + SplitFrom([s[0]], s[1..], role)
  }

  /** A word keeps together: no cut, and no start after its first character. */
  ghost predicate Whole(w: string, role: char -> Role)
  {
    w != "" && !role(w[0]).Cut? && forall c <- w[1..] :: role(c).Inside?
  }

  /** Text before which a word ends. */
  ghost predicate Ends(s: string, role: char -> Role)
  {
    s == "" || !role(s[0]).Inside?
  }

  lemma {:induction false} Collect(buffer: string, w: string, s: string, role: char -> Role)
    requires forall c <- w :: role(c).Inside?
    ensures SplitFrom(buffer, w + s, role) == SplitFrom(buffer + w, s, role)
    decreases |w|
  {
    if w == "" {
      assert w + s == s && buffer + w == buffer;
    } else {
      assert (w + s)[1..] == w[1..] + s;
      Collect(buffer + [w[0]], w[1..], s, role);
      assert buffer + [w[0]] + w[1..] == buffer + w;
    }
  }

  lemma SplitWord(w: string, s: string, role: char -> Role)
    requires Whole(w, role) && Ends(s, role)
    ensures SplitFrom("", w + s, role) == [w] + SplitFrom("", s, role)
  {
    assert (w + s)[1..] == w[1..] + s;
    Collect([w[0]], w[1..], s, role);
    assert [w[0]] + w[1..] == w;
    assert SplitFrom("", w + s, role) == SplitFrom(w, s, role) by {
      assert "" + [w[0]] == [w[0]];
      assert [] + SplitFrom([w[0]], (w + s)[1..], role) == SplitFrom([w[0]], (w + s)[1..], role);
    }
    if s != "" && role(s[0]).Start? {
      assert [] + SplitFrom([s[0]], s[1..], role) == SplitFrom([s[0]], s[1..], role);
    } else if s != "" {
      assert [] + SplitFrom("", s[1..], role) == SplitFrom("", s[1..], role);
    }
  }

  /** Text without cuts and starts is one word, or none. */
  lemma {:induction false} SplitInside(buffer: string, s: string, role: char -> Role)
    requires forall c <- s :: role(c).Inside?
    ensures SplitFrom(buffer, s, role) == Flush(buffer + s)
    decreases |s|
  {
    if s == "" {
      assert buffer + s == buffer;
    } else {
      SplitInside(buffer + [s[0]], s[1..], role);
      assert buffer + [s[0]] + s[1..] == buffer + s;
    }
  }

  /**
   A cut ends what is before it, and a start does so and begins what is after it, wherever they are;
   with text without either, this decides every text.
   */
  lemma {:induction false} SplitAt(buffer: string, a: string, c: char, b: string, role: char -> Role)
    requires !role(c).Inside?
    ensures SplitFrom(buffer, a + [c] + b, role) ==
            SplitFrom(buffer, a, role) + SplitFrom("", if role(c).Cut? then b else [c] + b, role)
    decreases |a|
  {
    var s := a + [c] + b;
    if a == "" {
      assert s[0] == c && s[1..] == b && ([c] + b)[1..] == b;
      assert [] + SplitFrom([c], b, role) == SplitFrom([c], b, role);
    } else {
      assert s[0] == a[0] && s[1..] == a[1..] + [c] + b;
      match role(a[0]) {
        case Inside => SplitAt(buffer + [a[0]], a[1..], c, b, role);
        case Cut => SplitAt("", a[1..], c, b, role);
        case Start => SplitAt([a[0]], a[1..], c, b, role);
      }
    }
  }

  /** Splitting undoes joining with a character that cuts. */
  lemma {:induction false} SplitJoined(words: seq<string>, c: char, role: char -> Role)
    requires role(c).Cut? && forall w <- words :: Whole(w, role)
    ensures SplitFrom("", Join(words, [c]), role) == words
    decreases |words|
  {
    if |words| == 1 {
      SplitWord(words[0], "", role);
      assert words[0] + "" == words[0];
    } else if |words| > 1 {
      var rest := Join(words[1..], [c]);
      SplitJoined(words[1..], c, role);
      SplitWord(words[0], [c] + rest, role);
      assert ([c] + rest)[1..] == rest;
      assert Join(words, [c]) == words[0] + ([c] + rest);
      assert [] + SplitFrom("", rest, role) == SplitFrom("", rest, role);
    }
  }

  /** Splitting undoes plain concatenation when each later word begins with a start. */
  lemma {:induction false} SplitConcatenated(words: seq<string>, role: char -> Role)
    requires forall w <- words :: Whole(w, role)
    requires forall i :: 0 < i < |words| ==> words[i] != "" && role(words[i][0]).Start?
    ensures SplitFrom("", Join(words, ""), role) == words
    decreases |words|
  {
    if |words| == 1 {
      SplitWord(words[0], "", role);
      assert words[0] + "" == words[0];
    } else if |words| > 1 {
      var rest := Join(words[1..], "");
      SplitConcatenated(words[1..], role);
      assert words[1..][0] == words[1] && words[1] != "";
      assert rest != "" && rest[0] == words[1][0];
      SplitWord(words[0], rest, role);
      assert Join(words, "") == words[0] + rest;
    }
  }

  /** One character of a splitting loop that keeps what it has collected in list. */
  lemma SplitStep(list: seq<string>, buffer: string, s: string, role: char -> Role)
    requires s != ""
    ensures list + SplitFrom(buffer, s, role) ==
            match role(s[0])
            case Inside => list + SplitFrom(buffer + [s[0]], s[1..], role)
            case Cut => (list + Flush(buffer)) + SplitFrom("", s[1..], role)
            case Start => (list + Flush(buffer)) + SplitFrom("" + [s[0]], s[1..], role)
  {
    assert "" + [s[0]] == [s[0]];
  }

  // ---------- The two splitters ----------

  /** format.split: cut at underscores, start at A-Z. */
  function WordRole(c: char): Role
  {
    if c == '_' then Cut else if IsUpper(c) then Start else Inside
  }

  /** The words of a text, with the word in progress. */
  function WordsFrom(buffer: string, s: string): seq<string>
  {
    SplitFrom(buffer, s, WordRole)
  }

  lemma WordsStep(list: seq<string>, buffer: string, s: string)
    requires s != ""
    ensures list + WordsFrom(buffer, s) ==
            if s[0] == '_' then (list + Flush(buffer)) + WordsFrom("", s[1..])
            else if 'A' <= s[0] <= 'Z' then (list + Flush(buffer)) + WordsFrom("" + [s[0]], s[1..])
            else list + WordsFrom(buffer + [s[0]], s[1..])
  {
    SplitStep(list, buffer, s, WordRole);
  }

  method SplitWords(content: string) returns (list: seq<string>)
    ensures list == SplitFrom("", content, WordRole)
  {
    list := [];
    var buffer := "";
    ghost var whole, rest := WordsFrom("", content), content;
    var i := 0;
    while i < |content|
      invariant 0 <= i <= |content| && rest == content[i..]
      invariant whole == list + WordsFrom(buffer, rest)
    {
      var r := content[i];
      WordsStep(list, buffer, rest);
      rest := rest[1..];
      i := i + 1;
      if r == '_' {
        if |buffer| > 0 {
          list := list + [buffer];
        }
        buffer := "";
        continue;
      }
      if 'A' <= r <= 'Z' {
        if |buffer| > 0 {
          list := list + [buffer];
        }
        buffer := "";
      }
      buffer := buffer + [r];
    }
    list := list + Flush(buffer);
  }

  function RoleOf(fn: char -> bool, remove: bool): char -> Role
  {
    c => if fn(c) then if remove then Cut else Start else Inside
  }

  function SplitByResult(s: string, fn: char -> bool, remove: bool): seq<string>
  {
    if Blank(s) then [] else SplitFrom("", s, RoleOf(fn, remove))
  }

  function SplitByFrom(buffer: string, s: string, fn: char -> bool, remove: bool): seq<string>
  {
    SplitFrom(buffer, s, RoleOf(fn, remove))
  }

  lemma SplitByStep(list: seq<string>, buffer: string, s: string, fn: char -> bool, remove: bool)
    requires s != ""
    ensures list + SplitByFrom(buffer, s, fn, remove) ==
            if !fn(s[0]) then list + SplitByFrom(buffer + [s[0]], s[1..], fn, remove)
            else (list + Flush(buffer)) + SplitByFrom(if remove then "" else "" + [s[0]], s[1..], fn, remove)
  {
    SplitStep(list, buffer, s, RoleOf(fn, remove));
  }

  method SplitBy(source: string, fn: char -> bool, remove: bool) returns (list: seq<string>)
    ensures list == SplitByResult(source, fn, remove)
  {
    list := [];
    if Blank(source) {
      return;
    }
    var buffer := "";
    ghost var whole, rest := SplitByFrom("", source, fn, remove), source;
    var i := 0;
    while i < |source|
      invariant 0 <= i <= |source| && rest == source[i..]
      invariant whole == list + SplitByFrom(buffer, rest, fn, remove)
    {
      var r := source[i];
      SplitByStep(list, buffer, rest, fn, remove);
      rest := rest[1..];
      i := i + 1;
      if fn(r) {
        if |buffer| != 0 {
          list := list + [buffer];
          buffer := "";
        }
        if !remove {
          buffer := buffer + [r];
        }
        continue;
      }
      buffer := buffer + [r];
    }
    if |buffer| != 0 {
      list := list + [buffer];
    }
  }

  function Each(words: seq<string>, f: string -> string): seq<string>
  {
    seq(|words|, i requires 0 <= i < |words| => f(words[i]))
  }
}
