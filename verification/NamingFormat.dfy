/** FileNamingFormat: a template such as go_zero or GoZero, and names formatted by it. */
module NamingFormat {
  import opened Wrappers
  import opened Text
  import opened NameText
  import opened Names

  datatype Style = AsTitle | AsLower | AsUpper

  /** ErrNamingFormat, and getStyle's error for a flag that mixes cases. */
  datatype FormatError = UnsupportedFormat | UnexpectedFlag(flag: string)

  const GO := "go"
  const ZERO := "zero"
  const FLAG_GO := "GO"
  const FLAG_ZERO := "ZERO"

  function TransferTo(word: string, style: Style): string
  {
    match style
    case AsUpper => Upper(word)
    case AsLower => Lower(word)
    case AsTitle => Title(word)
  }

  predicate Occurs(s: string, pattern: string, j: int)
  {
    0 <= j && j + |pattern| <= |s| && forall k :: 0 <= k < |pattern| ==> s[j + k] == pattern[k]
  }

  /** strings.Index from a position on. */
  function IndexFrom(s: string, pattern: string, i: nat): (r: int)
    ensures r >= 0 ==> r >= i && Occurs(s, pattern, r)
    ensures forall j :: i <= j && (r < 0 || j < r) ==> !Occurs(s, pattern, j)
    decreases |s| - i
  {
    if i > |s| then -1 else if Occurs(s, pattern, i) then i else IndexFrom(s, pattern, i + 1)
  }

  function Index(s: string, pattern: string): int
  {
    IndexFrom(s, pattern, 0)
  }

  /** The first word in the style of the go flag, the others in that of the zero flag. */
  function Styled(words: seq<string>, goStyle: Style, zeroStyle: Style): seq<string>
  {
    seq(|words|, i requires 0 <= i < |words| => TransferTo(words[i], if i == 0 then goStyle else zeroStyle))
  }

  datatype StyleFormat = StyleFormat(
    before: string, through: string, after: string, goStyle: Style, zeroStyle: Style)

  function Formatted(f: StyleFormat, content: string): string
  {
    f.before + Join(Styled(SplitFrom("", content, WordRole), f.goStyle, f.zeroStyle), f.through) + f.after
  }

  method DoFormat(f: StyleFormat, content: string) returns (r: string)
    ensures r == Formatted(f, content)
  {
    var splits := SplitWords(content);
    var joined: seq<string> := [];
    for index := 0 to |splits|
      invariant joined == Styled(splits, f.goStyle, f.zeroStyle)[..index]
    {
      if index == 0 {
        joined := joined + [TransferTo(splits[index], f.goStyle)];
        continue;
      }
      joined := joined + [TransferTo(splits[index], f.zeroStyle)];
    }
    assert joined == Styled(splits, f.goStyle, f.zeroStyle);
    r := f.before + Join(joined, f.through) + f.after;
  }

  lemma FlagsDoNotOverlap(upper: string)
    requires 0 <= Index(upper, FLAG_GO) <= Index(upper, FLAG_ZERO)
    ensures Index(upper, FLAG_GO) + 2 <= Index(upper, FLAG_ZERO)
  {
    var g, z := Index(upper, FLAG_GO), Index(upper, FLAG_ZERO);
    assert upper[g + 0] == FLAG_GO[0] == 'G' && upper[g + 1] == FLAG_GO[1] == 'O';
    assert upper[z + 0] == FLAG_ZERO[0] == 'Z';
  }

  // ---------- Flags ----------

  /** A non-empty word of letters a-z. */
  ghost predicate LowerWord(w: string)
  {
    w != "" && forall c <- w :: IsLower(c)
  }

  lemma LowerOfWord(w: string)
    requires forall c <- w :: IsLower(c)
    ensures Lower(w) == w
  {
    forall i | 0 <= i < |w|
      ensures ToLower(w[i]) == w[i]
    {
      assert w[i] in w;
    }
  }

  lemma TitleShape(w: string)
    requires LowerWord(w)
    ensures Title(w) == [ToUpper(w[0])] + w[1..] && IsUpper(Title(w)[0])
    ensures Lower(w) == w && Lower(Title(w)) == w
  {
    assert w[0] in w && IsLower(w[0]);
    assert forall c <- w[1..] :: c in w;
    LowerOfWord(w);
    LowerOfWord(w[1..]);
  }

  /** Lower-case letters after the first character keep a word whole for every splitter. */
  lemma WholeWord(v: string, w: string, role: char -> Role)
    requires LowerWord(w) && |v| == |w| && v[1..] == w[1..]
    requires !role(v[0]).Cut? && forall c :: IsLower(c) ==> role(c).Inside?
    ensures Whole(v, role)
  {
  }

  lemma TitleOfWord(w: string)
    requires LowerWord(w)
    ensures Title(w) == [ToUpper(w[0])] + w[1..] && Lower(w) == w && Lower(Title(w)) == w
    ensures IsUpper(Title(w)[0]) && IsLower(w[0])
    ensures Whole(w, WordRole) && Whole(Title(w), WordRole)
    ensures Whole(Title(w), RoleOf(IsUpper, false))
  {
    TitleShape(w);
    assert IsLower(w[0]) by {
      assert w[0] in w;
    }
    assert Title(w)[1..] == w[1..];
    WholeWord(w, w, WordRole);
    WholeWord(Title(w), w, WordRole);
    WholeWord(Title(w), w, RoleOf(IsUpper, false));
  }

  lemma LowerFromUpper(flag: string, w: string)
    requires LowerWord(w) && Upper(flag) == Upper(w)
    ensures Lower(flag) == w
  {
    assert |flag| == |Upper(flag)| == |Upper(w)| == |w|;
    forall i | 0 <= i < |w|
      ensures ToLower(flag[i]) == w[i]
    {
      assert Upper(flag)[i] == Upper(w)[i] && w[i] in w;
    }
  }

  lemma StylesDiffer(w: string)
    requires LowerWord(w) && |w| > 1
    ensures Upper(w) != w && Title(w) != w && Upper(w) != Title(w)
  {
    TitleShape(w);
    assert IsLower(w[0]) && IsLower(w[1]) by {
      assert w[0] in w && w[1] in w;
    }
    assert Upper(w)[0] != w[0] && Title(w)[0] != w[0] && Upper(w)[1] != Title(w)[1];
  }

  lemma StylesTellApart(w: string, s: Style, t: Style)
    requires LowerWord(w) && |w| > 1 && TransferTo(w, s) == TransferTo(w, t)
    ensures s == t
  {
    LowerOfWord(w);
    StylesDiffer(w);
  }

  /** The flag, put in lower case and then in the style, is as it was written. */
  predicate WrittenIn(flag: string, style: Style)
  {
    flag == TransferTo(Lower(flag), style)
  }

  /** The first style, in this order, that a flag is written in. */
  method GetStyle(flag: string) returns (style: Option<Style>)
    ensures style == Some(AsLower) <==> WrittenIn(flag, AsLower)
    ensures style == Some(AsUpper) <==> !WrittenIn(flag, AsLower) && WrittenIn(flag, AsUpper)
    ensures style == Some(AsTitle) <==>
              !WrittenIn(flag, AsLower) && !WrittenIn(flag, AsUpper) && WrittenIn(flag, AsTitle)
  {
    var compare := Lower(flag);
    if flag == Lower(compare) {
      return Some(AsLower);
    }
    if flag == Upper(compare) {
      return Some(AsUpper);
    }
    if flag == Title(compare) {
      return Some(AsTitle);
    }
    style := None;
  }

  /** A flag that reads as a longer word whatever its case is written in one style at most: the word's. */
  lemma OnlyStyle(flag: string, w: string)
    requires LowerWord(w) && |w| > 1 && Upper(flag) == Upper(w)
    ensures forall s :: WrittenIn(flag, s) <==> flag == TransferTo(w, s)
    ensures WrittenIn(flag, AsLower) ==> !WrittenIn(flag, AsUpper) && !WrittenIn(flag, AsTitle)
    ensures WrittenIn(flag, AsUpper) ==> !WrittenIn(flag, AsTitle)
  {
    LowerFromUpper(flag, w);
    LowerOfWord(w);
    StylesDiffer(w);
  }

  lemma FlagWords()
    ensures LowerWord(GO) && LowerWord(ZERO) && Upper(GO) == FLAG_GO && Upper(ZERO) == FLAG_ZERO
  {
  }

  lemma FlagsAsWritten(f: StyleFormat)
    ensures var goFlag, zeroFlag := TransferTo(GO, f.goStyle), TransferTo(ZERO, f.zeroStyle);
            |goFlag| == 2 && |zeroFlag| == 4 && Upper(goFlag) == FLAG_GO && Upper(zeroFlag) == FLAG_ZERO
  {
  }

  // ---------- Templates ----------

  /** The text of a template: its flags written in their styles, and the text around them. */
  function Template(f: StyleFormat): string
  {
    f.before + TransferTo(GO, f.goStyle) + f.through + TransferTo(ZERO, f.zeroStyle) + f.after
  }

  /** format is the template f, and its flags are the first of their kind in it. */
  ghost predicate Reads(format: string, f: StyleFormat)
  {
    && format == Template(f)
    && (forall j :: 0 <= j < |f.before| ==> !Occurs(Upper(format), FLAG_GO, j))
    && (forall j :: 0 <= j < |f.before| + 2 + |f.through| ==> !Occurs(Upper(format), FLAG_ZERO, j))
  }

  lemma FoundAt(format: string, i: nat, flag: string, base: string)
    requires i + |flag| <= |format| && format[i..i + |flag|] == flag && Upper(flag) == base
    requires forall j :: 0 <= j < i ==> !Occurs(Upper(format), base, j)
    ensures Index(Upper(format), base) == i
  {
    forall k | 0 <= k < |base|
      ensures Upper(format)[i + k] == base[k]
    {
      assert format[i + k] == flag[k];
    }
    assert Occurs(Upper(format), base, i);
  }

  lemma IndexFinds(format: string, base: string)
    requires Index(Upper(format), base) >= 0
    ensures var i := Index(Upper(format), base);
            i + |base| <= |format| && Upper(format[i..i + |base|]) == base
  {
  }

  /** The parts of a text around two flags found in it. */
  ghost predicate PartsAt(format: string, g: int, z: int, f: StyleFormat)
  {
    && 0 <= g && g + 2 <= z && z + 4 <= |format|
    && f.before == format[..g] && f.through == format[g + 2..z] && f.after == format[z + 4..]
    && TransferTo(GO, f.goStyle) == format[g..g + 2] && TransferTo(ZERO, f.zeroStyle) == format[z..z + 4]
  }

  lemma Slices(a: string, b: string, c: string, d: string, e: string)
    ensures var t := a + b + c + d + e;
            var z := |a| + |b| + |c|;
            && t[..|a|] == a && t[|a|..|a| + |b|] == b && t[|a| + |b|..z] == c
            && t[z..z + |d|] == d && t[z + |d|..] == e
  {
  }

  lemma PartsOfTemplate(f: StyleFormat)
    ensures PartsAt(Template(f), |f.before|, |f.before| + 2 + |f.through|, f)
  {
    FlagsAsWritten(f);
    Slices(f.before, TransferTo(GO, f.goStyle), f.through, TransferTo(ZERO, f.zeroStyle), f.after);
  }

  lemma TemplateOfParts(format: string, g: int, z: int, f: StyleFormat)
    requires PartsAt(format, g, z, f)
    ensures format == Template(f) && g == |f.before| && z == |f.before| + 2 + |f.through|
  {
  }

  lemma FlagsAreFound(format: string, f: StyleFormat)
    requires Reads(format, f)
    ensures Index(Upper(format), FLAG_GO) == |f.before|
    ensures Index(Upper(format), FLAG_ZERO) == |f.before| + 2 + |f.through|
  {
    var g, z := |f.before|, |f.before| + 2 + |f.through|;
    FlagsAsWritten(f);
    PartsOfTemplate(f);
    FoundAt(format, g, TransferTo(GO, f.goStyle), FLAG_GO);
    FoundAt(format, z, TransferTo(ZERO, f.zeroStyle), FLAG_ZERO);
  }

  /** Reading a template is finding its flags by the two searches. */
  lemma ReadsByIndex(format: string, f: StyleFormat)
    ensures Reads(format, f) <==> PartsAt(format, Index(Upper(format), FLAG_GO), Index(Upper(format), FLAG_ZERO), f)
  {
    if Reads(format, f) {
      FlagsAreFound(format, f);
      PartsOfTemplate(f);
    }
    if PartsAt(format, Index(Upper(format), FLAG_GO), Index(Upper(format), FLAG_ZERO), f) {
      TemplateOfParts(format, Index(Upper(format), FLAG_GO), Index(Upper(format), FLAG_ZERO), f);
    }
  }

  /** A format reads as one template at most. */
  lemma ReadsOneWay(format: string, f: StyleFormat, f': StyleFormat)
    requires Reads(format, f) && Reads(format, f')
    ensures f == f'
  {
    ReadsByIndex(format, f);
    ReadsByIndex(format, f');
    FlagWords();
    StylesTellApart(GO, f.goStyle, f'.goStyle);
    StylesTellApart(ZERO, f.zeroStyle, f'.zeroStyle);
  }

  /** The style of a flag that reads as a longer word: the one it is written in. */
  method GetStyleOf(flag: string, ghost w: string) returns (style: Option<Style>)
    requires LowerWord(w) && |w| > 1 && Upper(flag) == Upper(w)
    ensures forall s :: style == Some(s) <==> flag == TransferTo(w, s)
  {
    style := GetStyle(flag);
    OnlyStyle(flag, w);
    forall s
      ensures style == Some(s) <==> flag == TransferTo(w, s)
    {
      assert WrittenIn(flag, s) <==> flag == TransferTo(w, s);
      assert s == AsLower || s == AsUpper || s == AsTitle;
    }
  }

  /** The parts around two flags are one template, if both flags are written in a style. */
  lemma OneTemplate(format: string, g: nat, z: nat, goStyle: Option<Style>, zeroStyle: Option<Style>)
    requires g + 2 <= z && z + 4 <= |format|
    requires forall s :: goStyle == Some(s) <==> format[g..g + 2] == TransferTo(GO, s)
    requires forall s :: zeroStyle == Some(s) <==> format[z..z + 4] == TransferTo(ZERO, s)
    ensures forall f :: PartsAt(format, g, z, f) <==>
              goStyle.Some? && zeroStyle.Some?
              && f == StyleFormat(format[..g], format[g + 2..z], format[z + 4..], goStyle.value, zeroStyle.value)
  {
  }

  /** Both flags occur, whatever their case, the first GO before the first ZERO. */
  predicate HasFlags(format: string)
  {
    0 <= Index(Upper(format), FLAG_GO) <= Index(Upper(format), FLAG_ZERO)
  }

  /** There is a first ZERO, and a GO no later. */
  lemma HasFlagsExactly(format: string)
    ensures HasFlags(format) <==>
              exists g, z :: g <= z && Occurs(Upper(format), "GO", g) && Occurs(Upper(format), "ZERO", z)
                             && forall j :: 0 <= j < z ==> !Occurs(Upper(format), "ZERO", j)
  {
    var g, z := Index(Upper(format), FLAG_GO), Index(Upper(format), FLAG_ZERO);
    if HasFlags(format) {
      assert g <= z && Occurs(Upper(format), "GO", g) && Occurs(Upper(format), "ZERO", z);
    }
  }

  /** Reads the flags of a format, in the order of the source. */
  method ParseFormat(format: string) returns (parsed: Result<StyleFormat, FormatError>)
    ensures forall f :: parsed == Ok(f) <==> Reads(format, f)
    ensures parsed == Err(UnsupportedFormat) <==> !HasFlags(format)
  {
    var upperFormat := Upper(format);
    var indexGo := Index(upperFormat, FLAG_GO);
    var indexZero := Index(upperFormat, FLAG_ZERO);
    forall f
      ensures Reads(format, f) <==> PartsAt(format, indexGo, indexZero, f)
    {
      ReadsByIndex(format, f);
    }
    if indexGo < 0 || indexZero < 0 || indexGo > indexZero {
      return Err(UnsupportedFormat);
    }
    FlagsDoNotOverlap(upperFormat);
    FlagWords();
    IndexFinds(format, FLAG_GO);
    IndexFinds(format, FLAG_ZERO);
    var goFlag, zeroFlag := format[indexGo..indexGo + 2], format[indexZero..indexZero + 4];
    var goStyle := GetStyleOf(goFlag, GO);
    if goStyle.None? {
      return Err(UnexpectedFlag(goFlag));
    }
    var zeroStyle := GetStyleOf(zeroFlag, ZERO);
    if zeroStyle.None? {
      return Err(UnexpectedFlag(zeroFlag));
    }
    OneTemplate(format, indexGo, indexZero, goStyle, zeroStyle);
    parsed := Ok(StyleFormat(format[..indexGo], format[indexGo + 2..indexZero], format[indexZero + 4..],
                             goStyle.value, zeroStyle.value));
  }

  /** There is an error exactly when the format reads as no template; otherwise the template decides. */
  method FileNamingFormat(format: string, content: string) returns (r: Result<string, FormatError>)
    ensures forall f :: Reads(format, f) ==> r == Ok(Formatted(f, content))
    ensures r.Err? <==> forall f :: !Reads(format, f)
    ensures r.Ok? && content == "go_zero" ==> r.value == format
    ensures r == Err(UnsupportedFormat) <==> !HasFlags(format)
  {
    var parsed := ParseFormat(format);
    if parsed.Err? {
      return Err(parsed.error);
    }
    assert Reads(format, parsed.value);
    FormatsItself(format, parsed.value);
    var text := DoFormat(parsed.value, content);
    r := Ok(text);
  }

  // ---------- What a format makes of words ----------

  /** Each letter in the case of the flag's first letter, or of its second from the second on. */
  ghost predicate CasedLike(flag: string, w: string, t: string)
    requires |flag| >= 2
  {
    && |t| == |w|
    && forall i :: 0 <= i < |w| ==>
         t[i] == if IsUpper(flag[if i == 0 then 0 else 1]) then ToUpper(w[i]) else ToLower(w[i])
  }

  lemma CaseOfFlag(flagWord: string, style: Style)
    requires LowerWord(flagWord) && |flagWord| > 1
    ensures var flag := TransferTo(flagWord, style);
            |flag| > 1 && (IsUpper(flag[0]) <==> style != AsLower) && (IsUpper(flag[1]) <==> style == AsUpper)
  {
    TitleShape(flagWord);
    assert flagWord[0] in flagWord && flagWord[1] in flagWord;
  }

  lemma StyleIsCase(flag: string, w: string, style: Style)
    requires |flag| > 1 && (IsUpper(flag[0]) <==> style != AsLower) && (IsUpper(flag[1]) <==> style == AsUpper)
    requires w != ""
    ensures CasedLike(flag, w, TransferTo(w, style))
  {
    if style == AsTitle {
      assert forall i :: 1 <= i < |w| ==> Lower(w[1..])[i - 1] == ToLower(w[i]);
    }
  }

  /** The name is the words, cased like the flags, between the texts before, between and after the flags. */
  ghost predicate NameFor(format: string, f: StyleFormat, words: seq<string>, name: string)
    requires format == Template(f)
  {
    var g, z := |f.before|, |f.before| + 2 + |f.through|;
    exists cased: seq<string> ::
      && |cased| == |words| && z + 4 <= |format|
      && (forall i :: 0 <= i < |words| ==>
            CasedLike(if i == 0 then format[g..g + 2] else format[z..z + 4], words[i], cased[i]))
      && name == format[..g] + Join(cased, format[g + 2..z]) + format[z + 4..]
  }

  lemma FormattedNames(format: string, f: StyleFormat, content: string, words: seq<string>)
    requires Reads(format, f) && SplitFrom("", content, WordRole) == words && forall w <- words :: w != ""
    ensures NameFor(format, f, words, Formatted(f, content))
  {
    FlagWords();
    PartsOfTemplate(f);
    CaseOfFlag(GO, f.goStyle);
    CaseOfFlag(ZERO, f.zeroStyle);
    var cased := Styled(words, f.goStyle, f.zeroStyle);
    var g, z := |f.before|, |f.before| + 2 + |f.through|;
    forall i | 0 <= i < |words|
      ensures CasedLike(if i == 0 then format[g..g + 2] else format[z..z + 4], words[i], cased[i])
    {
      assert words[i] in words;
      if i == 0 {
        StyleIsCase(format[g..g + 2], words[i], f.goStyle);
      } else {
        StyleIsCase(format[z..z + 4], words[i], f.zeroStyle);
      }
    }
  }

  /** So it is for whole words joined with underscores, and for words glued together at their capitals. */
  lemma FormatsWords(format: string, f: StyleFormat, words: seq<string>)
    requires Reads(format, f) && forall w <- words :: Whole(w, WordRole)
    ensures NameFor(format, f, words, Formatted(f, Join(words, "_")))
  {
    SplitJoined(words, '_', WordRole);
    FormattedNames(format, f, Join(words, "_"), words);
  }

  lemma FormatsGluedWords(format: string, f: StyleFormat, words: seq<string>)
    requires Reads(format, f) && forall w <- words :: Whole(w, WordRole)
    requires forall i :: 0 < i < |words| ==> words[i] != "" && IsUpper(words[i][0])
    ensures NameFor(format, f, words, Formatted(f, Join(words, "")))
  {
    GluedWordsSplit(words);
    FormattedNames(format, f, Join(words, ""), words);
  }

  lemma GluedWordsSplit(words: seq<string>)
    requires forall w <- words :: Whole(w, WordRole)
    requires forall i :: 0 < i < |words| ==> words[i] != "" && IsUpper(words[i][0])
    ensures SplitFrom("", Join(words, ""), WordRole) == words && forall w <- words :: w != ""
  {
    forall i | 0 < i < |words|
      ensures words[i] != "" && WordRole(words[i][0]).Start?
    {
    }
    SplitConcatenated(words, WordRole);
  }

  /** A format formats the name it is written after to itself. */
  lemma FormatsItself(format: string, f: StyleFormat)
    requires Reads(format, f)
    ensures Formatted(f, "go_zero") == format
  {
    FlagWords();
    TitleOfWord(GO);
    TitleOfWord(ZERO);
    var words := [GO, ZERO];
    assert Join(words, "_") == "go_zero";
    SplitJoined(words, '_', WordRole);
    var styled := Styled(words, f.goStyle, f.zeroStyle);
    assert styled == [TransferTo(GO, f.goStyle), TransferTo(ZERO, f.zeroStyle)];
    assert Join(styled, f.through) == TransferTo(GO, f.goStyle) + f.through + TransferTo(ZERO, f.zeroStyle);
    FiveParts(f.before, TransferTo(GO, f.goStyle), f.through, TransferTo(ZERO, f.zeroStyle), f.after);
  }

  lemma FiveParts(a: string, b: string, c: string, d: string, e: string)
    ensures a + (b + c + d) + e == a + b + c + d + e
  {
  }

  // ---------- Names of lower-case words ----------

  lemma {:induction false} JoinedLower(words: seq<string>)
    requires words != [] && forall w <- words :: LowerWord(w)
    ensures Join(words, "_") != "" && IsLower(Join(words, "_")[0])
    ensures var p := Join(Each(words, Title), ""); PascalName(p)
  {
    TitleOfWord(words[0]);
    if |words| > 1 {
      JoinedLower(words[1..]);
      assert Each(words, Title)[1..] == Each(words[1..], Title);
    } else {
      assert Each(words, Title) == [Title(words[0])];
    }
  }

  lemma TitlesSplit(words: seq<string>)
    requires forall w <- words :: LowerWord(w)
    ensures var titles := Each(words, Title);
            && Each(titles, Lower) == words && Each(words, Lower) == words
            && (forall w <- words :: Whole(w, WordRole))
  {
    forall i | 0 <= i < |words|
      ensures Lower(Title(words[i])) == words[i] == Lower(words[i]) && Whole(words[i], WordRole)
    {
      TitleOfWord(words[i]);
    }
  }

  const SNAKE := StyleFormat("", "_", "", AsLower, AsLower)    // go_zero
  const PASCAL := StyleFormat("", "", "", AsTitle, AsTitle)     // GoZero
  const CAMEL := StyleFormat("", "", "", AsLower, AsTitle)      // goZero

  lemma PlainTemplate(f: StyleFormat)
    requires f == SNAKE || f == PASCAL || f == CAMEL
    ensures Reads(Template(f), f)
  {
    var t, z := Template(f), 2 + |f.through|;
    FlagWords();
    FlagsAsWritten(f);
    assert Upper(t)[..2] == FLAG_GO;
    forall j | 0 <= j < z
      ensures !Occurs(Upper(t), FLAG_ZERO, j)
    {
      assert Upper(t)[j + 0] == if j < 2 then Upper(t)[..2][j] else '_';
      assert FLAG_ZERO[0] == 'Z' && FLAG_GO == ['G', 'O'];
    }
  }

  lemma SnakeTemplate()
    ensures Reads("go_zero", SNAKE)
  {
    PlainTemplate(SNAKE);
    assert Template(SNAKE) == "go_zero";
  }

  lemma PascalTemplate()
    ensures Reads("GoZero", PASCAL)
  {
    PlainTemplate(PASCAL);
    assert Template(PASCAL) == "GoZero";
  }

  lemma CamelTemplate()
    ensures Reads("goZero", CAMEL)
  {
    PlainTemplate(CAMEL);
    assert Template(CAMEL) == "goZero";
  }

  lemma FormatByTemplate(f: StyleFormat, content: string, words: seq<string>)
    requires f.before == "" && f.after == "" && SplitFrom("", content, WordRole) == words
    ensures Formatted(f, content) == Join(Styled(words, f.goStyle, f.zeroStyle), f.through)
  {
  }

  /** Words in title style from the second on, glued together, come back as the lower-case words. */
  lemma GluedAndBack(words: seq<string>, first: Style)
    requires (forall w <- words :: LowerWord(w)) && (first == AsLower || first == AsTitle)
    ensures Formatted(SNAKE, Join(Styled(words, first, AsTitle), "")) == Join(words, "_")
  {
    var styled := Styled(words, first, AsTitle);
    forall i | 0 <= i < |words|
      ensures Whole(styled[i], WordRole) && Lower(styled[i]) == words[i]
      ensures i > 0 ==> styled[i] != "" && WordRole(styled[i][0]).Start?
    {
      TitleOfWord(words[i]);
    }
    SplitConcatenated(styled, WordRole);
    FormatByTemplate(SNAKE, Join(styled, ""), styled);
    assert Styled(styled, AsLower, AsLower) == words;
  }

  /** Formatting a snake name to GoZero or goZero and back to go_zero gives the name again. */
  lemma FormatRoundTrip(words: seq<string>)
    requires forall w <- words :: LowerWord(w)
    ensures Reads("go_zero", SNAKE) && Reads("GoZero", PASCAL) && Reads("goZero", CAMEL)
    ensures var name := Join(words, "_");
            && Formatted(PASCAL, name) == Join(Each(words, Title), "")
            && Formatted(SNAKE, Formatted(PASCAL, name)) == name
            && Formatted(SNAKE, Formatted(CAMEL, name)) == name
  {
    SnakeTemplate();
    PascalTemplate();
    CamelTemplate();
    TitlesSplit(words);
    SplitJoined(words, '_', WordRole);
    FormatByTemplate(PASCAL, Join(words, "_"), words);
    FormatByTemplate(CAMEL, Join(words, "_"), words);
    assert Styled(words, AsTitle, AsTitle) == Each(words, Title);
    GluedAndBack(words, AsTitle);
    GluedAndBack(words, AsLower);
  }

  lemma ToCamelOfSnake(words: seq<string>)
    requires words != [] && forall w <- words :: LowerWord(w)
    ensures ToCamelResult(Join(words, "_")) == Join(Each(words, Title), "")
  {
    var cut := RoleOf(c => c == '_', true);
    forall w <- words
      ensures Whole(w, cut)
    {
      assert w[0] in w;
      assert forall c <- w[1..] :: c in w;
    }
    JoinedLower(words);
    assert Join(words, "_")[0] in Join(words, "_");
    SplitJoined(words, '_', cut);
  }

  lemma TitlesRejoin(words: seq<string>)
    requires forall w <- words :: LowerWord(w)
    ensures var titles := Each(words, Title);
            SplitFrom("", Join(titles, ""), RoleOf(IsUpper, false)) == titles && Each(titles, Lower) == words
  {
    var titles := Each(words, Title);
    TitlesSplit(words);
    forall i | 0 <= i < |titles|
      ensures Whole(titles[i], RoleOf(IsUpper, false))
      ensures titles[i] != "" && RoleOf(IsUpper, false)(titles[i][0]).Start?
    {
      TitleOfWord(words[i]);
    }
    SplitConcatenated(titles, RoleOf(IsUpper, false));
  }

  lemma ToSnakeOfPascal(words: seq<string>)
    requires words != [] && forall w <- words :: LowerWord(w)
    ensures ToSnakeResult(Join(Each(words, Title), "")) == Join(words, "_")
  {
    var pascal := Join(Each(words, Title), "");
    TitlesRejoin(words);
    JoinedLower(words);
    assert !Blank(pascal) by {
      assert pascal[0] in pascal;
    }
  }

  /** On such names the repository's converters agree with each other in both directions. */
  lemma ConvertersAgree(words: seq<string>)
    requires words != [] && forall w <- words :: LowerWord(w)
    ensures var snake := Join(words, "_");
            var pascal := Formatted(PASCAL, snake);
            && ToCamelResult(snake) == pascal && Camel(snake) == pascal
            && Formatted(SNAKE, pascal) == snake && ToSnakeResult(pascal) == snake && Snake(pascal) == snake
  {
    var pascal := Join(Each(words, Title), "");
    FormatRoundTrip(words);
    ToCamelOfSnake(words);
    ToSnakeOfPascal(words);
    JoinedLower(words);
    assert pascal[0] in pascal;
    SnakesAgreeExactly(pascal);
    CamelUndoesSnake(pascal);
  }
}
