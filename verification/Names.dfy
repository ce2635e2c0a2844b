/** The snake and camel converters of stringx, over ASCII text. */
module Names {
  import opened Text
  import opened NameText

  // ---------- SnakeString and CamelString ----------

  /** SnakeString of a suffix; j says whether a character other than '_' came before it. */
  function SnakeFrom(s: string, j: bool): string
    decreases |s|
  {
    if s == "" then ""
    else
      var rest := [ToLower(s[0])] + SnakeFrom(s[1..], j || s[0] != '_');
      if IsUpper(s[0]) && j then ['_'] + rest else rest
  }

  function Snake(s: string): string
  {
    SnakeFrom(s, false)
  }

  lemma LowerSnoc(data: string, d: char)
    ensures Lower(data + [d]) == Lower(data) + [ToLower(d)]
  {
  }

  /** One character of the loop: what it appends, in lower case, is what SnakeFrom puts there. */
  lemma SnakeStep(data: string, s: string, j: bool)
    requires s != ""
    ensures var data' := if IsUpper(s[0]) && j then data + ['_'] else data;
            Lower(data) + SnakeFrom(s, j) == Lower(data' + [s[0]]) + SnakeFrom(s[1..], j || s[0] != '_')
  {
  }

  method SnakeString(s: string) returns (r: string)
    ensures r == Snake(s)
  {
    var data := "";
    var j := false;
    ghost var rest := s;
    for i := 0 to |s|
      invariant rest == s[i..] && (j ==> i > 0)
      invariant Snake(s) == Lower(data) + SnakeFrom(rest, j)
    {
      var d := s[i];
      SnakeStep(data, rest, j);
      rest := rest[1..];
      if i > 0 && 'A' <= d <= 'Z' && j {
        data := data + ['_'];
      }
      if d != '_' {
        j := true;
      }
      data := data + [d];
    }
    r := Lower(data);
  }

  /** CamelString of a suffix, with the loop's flags j and k. */
  function CamelFrom(s: string, j: bool, k: bool): string
    decreases |s|
  {
    if s == "" then ""
    else
      var d := s[0];
      if IsLower(d) && (j || !k) then [ToUpper(d)] + CamelFrom(s[1..], false, true)
      else
        var k' := k || IsUpper(d);
        if k' && d == '_' && |s| > 1 && IsLower(s[1]) then CamelFrom(s[1..], true, k')
        else [d] + CamelFrom(s[1..], j, k')
  }

  function Camel(s: string): string
  {
    CamelFrom(s, false, false)
  }

  /** One character of the loop, with d, j and k as its two flag tests leave them. */
  lemma CamelStep(data: string, s: string, j: bool, k: bool)
    requires s != ""
    ensures var raise := IsLower(s[0]) && (j || !k);
            var d := if raise then ToUpper(s[0]) else s[0];
            var k' := k || raise || IsUpper(s[0]);
            data + CamelFrom(s, j, k) ==
              if k' && d == '_' && |s| > 1 && IsLower(s[1]) then data + CamelFrom(s[1..], true, k')
              else (data + [d]) + CamelFrom(s[1..], j && !raise, k')
  {
  }

  method CamelString(s: string) returns (r: string)
    ensures r == Camel(s)
  {
    var data := "";
    var j, k := false, false;
    var num := |s| - 1;
    var i := 0;
    ghost var rest := s;
    while i <= num
      invariant 0 <= i <= |s| && rest == s[i..]
      invariant Camel(s) == data + CamelFrom(rest, j, k)
    {
      var d := s[i];
      CamelStep(data, rest, j, k);
      assert |rest| > 1 ==> rest[1] == s[i + 1];
      rest := rest[1..];
      if k == false && 'A' <= d <= 'Z' {
        k := true;
      }
      if 'a' <= d <= 'z' && (j || k == false) {
        d := d - 32 as char;
        j := false;
        k := true;
      }
      if k && d == '_' && num > i && 'a' <= s[i + 1] <= 'z' {
        j := true;
        i := i + 1;
        continue;
      }
      data := data + [d];
      i := i + 1;
    }
    r := data;
  }

  predicate IsAlnum(c: char)
  {
    IsUpper(c) || IsLower(c) || IsDigit(c)
  }

  /** [A-Z][A-Za-z0-9]* */
  predicate PascalName(s: string)
  {
    s != "" && IsUpper(s[0]) && forall c <- s :: IsAlnum(c)
  }

  /** Letters and digits in lower case; an underscore stands only before a lower-case letter. */
  predicate SnakeTail(s: string)
  {
    && (forall c <- s :: IsLower(c) || IsDigit(c) || c == '_')
    && (forall i :: 0 <= i < |s| && s[i] == '_' ==> i + 1 < |s| && IsLower(s[i + 1]))
  }

  predicate SnakeName(s: string)
  {
    s != "" && IsLower(s[0]) && SnakeTail(s)
  }

  lemma {:induction false} SnakeIsTail(s: string)
    requires forall c <- s :: IsAlnum(c)
    ensures SnakeTail(SnakeFrom(s, true))
    decreases |s|
  {
    if s != "" {
      assert IsAlnum(s[0]);
      SnakeIsTail(s[1..]);
      var rest, low := SnakeFrom(s[1..], true), ToLower(s[0]);
      if IsUpper(s[0]) {
      }
    }
  }

  lemma {:induction false} CamelOfSnakeTail(s: string)
    requires forall c <- s :: IsAlnum(c)
    ensures CamelFrom(SnakeFrom(s, true), false, true) == s
    decreases |s|
  {
    if s != "" {
      assert IsAlnum(s[0]);
      CamelOfSnakeTail(s[1..]);
      var rest, low := SnakeFrom(s[1..], true), ToLower(s[0]);
      assert [s[0]] + s[1..] == s;
      if IsUpper(s[0]) {
        UnderscorePair(low, rest);
        assert SnakeFrom(s, true) == ['_', low] + rest by {
          assert ['_'] + ([low] + rest) == ['_', low] + rest;
        }
      } else {
        assert ([low] + rest)[1..] == rest;
      }
    }
  }

  /** An underscore and the letter after it become a capital, which becomes the two again. */
  lemma UnderscorePair(c: char, t: string)
    requires IsLower(c)
    ensures CamelFrom(['_', c] + t, false, true) == [ToUpper(c)] + CamelFrom(t, false, true)
    ensures forall rest :: SnakeFrom([ToUpper(c)] + rest, true) == ['_', c] + SnakeFrom(rest, true)
  {
  }

  lemma {:induction false} CamelThenSnakeTail(s: string)
    requires SnakeTail(s)
    ensures forall c <- CamelFrom(s, false, true) :: IsAlnum(c)
    ensures SnakeFrom(CamelFrom(s, false, true), true) == s
    decreases |s|
  {
    if s != "" {
      assert s[0] in s;
      assert [s[0]] + s[1..] == s;
      if s[0] == '_' {
        CamelThenSnakeTail(s[2..]);
        UnderscorePair(s[1], s[2..]);
        assert ['_', s[1]] + s[2..] == s;
      } else {
        CamelThenSnakeTail(s[1..]);
        var rest := CamelFrom(s[1..], false, true);
        assert CamelFrom(s, false, true) == [s[0]] + rest;
        assert ([s[0]] + rest)[1..] == rest;
      }
    }
  }

  /** Snake takes every Pascal-case name to a snake name that Camel takes back. */
  lemma CamelUndoesSnake(s: string)
    requires PascalName(s)
    ensures SnakeName(Snake(s)) && Camel(Snake(s)) == s
  {
    SnakeIsTail(s[1..]);
    CamelOfSnakeTail(s[1..]);
    var rest, low := SnakeFrom(s[1..], true), ToLower(s[0]);
    assert Snake(s) == [low] + rest;
    assert ([low] + rest)[1..] == rest;
    assert [s[0]] + s[1..] == s;
  }

  /** Camel takes every snake name to a Pascal-case name that Snake takes back. */
  lemma SnakeUndoesCamel(s: string)
    requires SnakeName(s)
    ensures PascalName(Camel(s)) && Snake(Camel(s)) == s
  {
    CamelThenSnakeTail(s[1..]);
    var rest, up := CamelFrom(s[1..], false, true), ToUpper(s[0]);
    assert Camel(s) == [up] + rest;
    assert ([up] + rest)[1..] == rest;
    assert [s[0]] + s[1..] == s;
  }

  // ---------- CamelString on other names ----------

  /** A word of letters and digits, of any case. */
  predicate Alnum(w: string)
  {
    w != "" && forall c <- w :: IsAlnum(c)
  }

  /** A later word in the result: raised if it begins with a lower-case letter, else as it is after its underscore. */
  function Attached(w: string): string
  {
    if w != "" && IsLower(w[0]) then [ToUpper(w[0])] + w[1..] else "_" + w
  }

  function AttachedAll(words: seq<string>): string
  {
    if words == [] then "" else Attached(words[0]) + AttachedAll(words[1..])
  }

  /** Inside a word everything stays as it is. */
  lemma {:induction false} CamelInside(w: string, s: string)
    requires forall c <- w :: IsAlnum(c)
    ensures CamelFrom(w + s, false, true) == w + CamelFrom(s, false, true)
  {
    if w == "" {
      assert w + s == s && w + CamelFrom(s, false, true) == CamelFrom(s, false, true);
    } else {
      assert w[0] in w && (w + s)[0] == w[0] && (w + s)[1..] == w[1..] + s;
      assert forall c <- w[1..] :: c in w;
      CamelInside(w[1..], s);
      assert [w[0]] + w[1..] == w;
      assert [w[0]] + (w[1..] + CamelFrom(s, false, true)) == [w[0]] + w[1..] + CamelFrom(s, false, true);
    }
  }

  lemma CamelUnderscore(w: string, s: string)
    requires Alnum(w)
    ensures CamelFrom("_" + w + s, false, true) == Attached(w) + CamelFrom(s, false, true)
  {
    var t := "_" + w + s;
    assert w[0] in w && t[0] == '_' && t[1..] == w + s && (w + s)[0] == w[0] && t[1] == w[0];
    if IsLower(w[0]) {
      assert (w + s)[1..] == w[1..] + s;
      assert forall c <- w[1..] :: c in w;
      CamelInside(w[1..], s);
      Regroup([ToUpper(w[0])], w[1..], CamelFrom(s, false, true));
    } else {
      CamelInside(w, s);
      Regroup("_", w, CamelFrom(s, false, true));
    }
  }

  lemma {:induction false} CamelWords(words: seq<string>)
    requires forall w <- words :: Alnum(w)
    ensures CamelFrom(Underscored(words), false, true) == AttachedAll(words)
  {
    if words != [] {
      CamelWords(words[1..]);
      CamelUnderscore(words[0], Underscored(words[1..]));
    }
  }

  /** The words, each after an underscore. */
  function Underscored(words: seq<string>): string
  {
    if words == [] then "" else "_" + words[0] + Underscored(words[1..])
  }

  lemma {:induction false} JoinIsUnderscored(words: seq<string>)
    requires words != []
    ensures Join(words, "_") == words[0] + Underscored(words[1..])
  {
    if |words| == 1 {
      assert words[0] + "" == words[0];
    } else {
      JoinIsUnderscored(words[1..]);
      Regroup("_", words[1], Underscored(words[1..][1..]));
      Regroup(words[0], "_", Join(words[1..], "_"));
    }
  }

  /**
   CamelString on words of letters and digits joined with underscores, the first of which begins with a
   letter: that letter is raised, a lower-case letter after an underscore is raised in its place, and
   everything else, capitals inside words included, stays.
   */
  lemma CamelOfWords(words: seq<string>)
    requires words != [] && Alnum(words[0]) && !IsDigit(words[0][0]) && forall w <- words :: Alnum(w)
    ensures Camel(Join(words, "_")) == [ToUpper(words[0][0])] + words[0][1..] + AttachedAll(words[1..])
  {
    var w, tail := words[0], Underscored(words[1..]);
    JoinIsUnderscored(words);
    var s := w + tail;
    assert w[0] in w && s[0] == w[0] && s[1..] == w[1..] + tail;
    assert forall c <- w[1..] :: c in w;
    assert Camel(s) == [ToUpper(w[0])] + CamelFrom(s[1..], false, true);
    CamelInside(w[1..], tail);
    CamelWords(words[1..]);
    Regroup([ToUpper(w[0])], w[1..], AttachedAll(words[1..]));
  }

  // ---------- The other snake and camel converters ----------

  function ToSnakeResult(s: string): string
  {
    Join(Each(SplitByResult(s, IsUpper, false), Lower), "_")
  }

  method ToSnake(source: string) returns (r: string)
    ensures r == ToSnakeResult(source)
  {
    var list := SplitBy(source, IsUpper, false);
    var target: seq<string> := [];
    for i := 0 to |list|
      invariant target == Each(list[..i], Lower)
    {
      target := target + [Lower(list[i])];
      assert Each(list[..i + 1], Lower) == target;
    }
    assert list[..|list|] == list;
    r := Join(target, "_");
  }

  function ToCamelResult(s: string): string
  {
    Join(Each(SplitByResult(s, c => c == '_', true), Title), "")
  }

  method ToCamel(source: string) returns (r: string)
    ensures r == ToCamelResult(source)
  {
    var list := SplitBy(source, c => c == '_', true);
    var target: seq<string> := [];
    for i := 0 to |list|
      invariant target == Each(list[..i], Title)
    {
      target := target + [Title(list[i])];
      assert Each(list[..i + 1], Title) == target;
    }
    assert list[..|list|] == list;
    r := Join(target, "");
  }

  lemma JoinLowerCons(w: string, words: seq<string>)
    requires words != []
    ensures Join(Each([w] + words, Lower), "_") == Lower(w) + "_" + Join(Each(words, Lower), "_")
  {
    assert Each([w] + words, Lower)[1..] == Each(words, Lower);
  }

  /** From a word in progress on, splitting and joining inserts underscores where SnakeString does. */
  lemma {:induction false} SplitAndJoinIsSnake(buffer: string, s: string)
    requires buffer != ""
    ensures SplitFrom(buffer, s, RoleOf(IsUpper, false)) != []
    ensures Join(Each(SplitFrom(buffer, s, RoleOf(IsUpper, false)), Lower), "_")
            == Lower(buffer) + SnakeFrom(s, true)
    decreases |s|
  {
    var role := RoleOf(IsUpper, false);
    if s == "" {
      assert Each([buffer], Lower) == [Lower(buffer)];
    } else if IsUpper(s[0]) {
      SplitAndJoinIsSnake([s[0]], s[1..]);
      JoinLowerCons(buffer, SplitFrom([s[0]], s[1..], role));
      assert Lower([s[0]]) == [ToLower(s[0])];
      Regroup(Lower(buffer), "_", Lower([s[0]]) + SnakeFrom(s[1..], true));
    } else {
      SplitAndJoinIsSnake(buffer + [s[0]], s[1..]);
      LowerSnoc(buffer, s[0]);
      Regroup(Lower(buffer), [ToLower(s[0])], SnakeFrom(s[1..], true));
    }
  }

  /** The first character other than an underscore exists and is in A-Z. */
  predicate UpperAfterUnderscores(s: string)
    decreases |s|
  {
    s != "" && (IsUpper(s[0]) || (s[0] == '_' && UpperAfterUnderscores(s[1..])))
  }

  lemma {:induction false} SnakeFlag(s: string)
    ensures |SnakeFrom(s, true)| == |SnakeFrom(s, false)| + if UpperAfterUnderscores(s) then 1 else 0
    ensures !UpperAfterUnderscores(s) ==> SnakeFrom(s, true) == SnakeFrom(s, false)
    decreases |s|
  {
    if s != "" && s[0] == '_' {
      SnakeFlag(s[1..]);
    }
  }

  /**
   The two snake converters agree on a text exactly unless it is blank but not empty, or begins
   with underscores followed directly by an upper-case letter.
   */
  lemma SnakesAgreeExactly(s: string)
    ensures Snake(s) == ToSnakeResult(s)
            <==> s == "" || (!Blank(s) && (s[0] != '_' || !UpperAfterUnderscores(s[1..])))
  {
    if Blank(s) {
      if s != "" {
        assert |Snake(s)| > 0;
      }
    } else {
      var role := RoleOf(IsUpper, false);
      var low := [ToLower(s[0])];
      SplitAndJoinIsSnake([s[0]], s[1..]);
      assert "" + [s[0]] == [s[0]];
      assert [] + SplitFrom([s[0]], s[1..], role) == SplitFrom([s[0]], s[1..], role);
      assert Lower([s[0]]) == low;
      assert ToSnakeResult(s) == low + SnakeFrom(s[1..], true);
      assert Snake(s) == low + SnakeFrom(s[1..], s[0] != '_');
      SnakeFlag(s[1..]);
    }
  }

  /** ToCamel on whole words joined with underscores: each in title style, glued together. */
  lemma ToCamelOfWords(words: seq<string>)
    requires forall w <- words :: w != "" && '_' !in w
    requires words != [] ==> !Blank(Join(words, "_"))
    ensures ToCamelResult(Join(words, "_")) == Join(Each(words, Title), "")
  {
    var cut := RoleOf(c => c == '_', true);
    forall w <- words
      ensures Whole(w, cut)
    {
      assert w[0] in w;
      assert forall c <- w[1..] :: c in w;
    }
    SplitJoined(words, '_', cut);
  }
}
