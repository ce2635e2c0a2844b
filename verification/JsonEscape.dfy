/** EscapeJson's seven passes of bounded replacement, and the strings they are meant for. */
module JsonEscape {
  import opened Wrappers
  import opened Text

  const BACKSPACE := '\U{08}'
  const FORM_FEED := '\U{0C}'

  const SPECIAL: seq<char> := ['\\', BACKSPACE, FORM_FEED, '\n', '\r', '\t', '"']
  const LETTER: seq<char> := ['\\', 'b', 'f', 'n', 'r', 't', '"']

  const MAX_REPLACEMENTS := 1000

  /** strings.Replace of a single character, at most n times from the left. */
  function Replace(s: string, c: char, text: string, n: nat): string
  {
    if s == "" then ""
    else if s[0] == c && n > 0 then text + Replace(s[1..], c, text, n - 1)
    else [s[0]] + Replace(s[1..], c, text, n)
  }

  /** strings.Replace: the empty text is found before every character and at the end. */
  function ReplaceText(s: string, what: string, text: string, n: nat): string
  {
    if n == 0 then s
    else if what == "" then text + if s == "" then "" else [s[0]] + ReplaceText(s[1..], what, text, n - 1)
    else if what <= s then text + ReplaceText(s[|what|..], what, text, n - 1)
    else if s == "" then ""
    else [s[0]] + ReplaceText(s[1..], what, text, n)
  }

  /** The first k replacements, one whole pass after the other. */
  function ReplaceEach(s: string, olds: seq<string>, texts: seq<string>, k: nat): string
    requires k <= |olds| == |texts|
  {
    if k == 0 then s
    else ReplaceText(ReplaceEach(s, olds, texts, k - 1), olds[k - 1], texts[k - 1], MAX_REPLACEMENTS)
  }

  method ReplaceStrings(s: string, olds: seq<string>, texts: seq<string>) returns (r: string)
    ensures r == if s == "" || |olds| != |texts| then s else ReplaceEach(s, olds, texts, |olds|)
  {
    r := s;
    if s == "" {
      return;
    }
    if |olds| != |texts| {
      return;
    }
    for i := 0 to |olds|
      invariant r == ReplaceEach(s, olds, texts, i)
    {
      r := ReplaceText(r, olds[i], texts[i], MAX_REPLACEMENTS);
    }
  }

  // ---------- Which texts are replaced ----------

  predicate OccursAt(s: string, what: string, i: int)
  {
    0 <= i <= |s| && what <= s[i..]
  }

  lemma OccursLater(c: char, s: string, what: string, j: nat)
    ensures OccursAt([c] + s, what, j + 1) <==> OccursAt(s, what, j)
  {
    assert j <= |s| ==> ([c] + s)[j + 1..] == s[j..];
  }

  lemma ReplaceTextStep(c: char, s: string, what: string, text: string, n: nat)
    requires what != "" && !OccursAt([c] + s, what, 0)
    ensures ReplaceText([c] + s, what, text, n) == [c] + ReplaceText(s, what, text, n)
  {
    assert ([c] + s)[0..] == [c] + s && ([c] + s)[1..] == s;
  }

  lemma Cons(a: string, b: string)
    requires a != ""
    ensures a + b == [a[0]] + (a[1..] + b)
  {
  }

  /** Replacing goes from the leftmost occurrence on behind it, as often as it may. */
  lemma {:induction false} ReplaceTextFromLeft(a: string, what: string, b: string, text: string, n: nat)
    requires what != "" && n > 0 && forall j :: 0 <= j < |a| ==> !OccursAt(a + (what + b), what, j)
    ensures ReplaceText(a + (what + b), what, text, n) == a + (text + ReplaceText(b, what, text, n - 1))
  {
    if a == "" {
      assert a + (what + b) == what + b && (what + b)[|what|..] == b;
      assert a + (text + ReplaceText(b, what, text, n - 1)) == text + ReplaceText(b, what, text, n - 1);
    } else {
      Cons(a, what + b);
      var s := a[1..] + (what + b);
      forall j | 0 <= j < |a[1..]|
        ensures !OccursAt(s, what, j)
      {
        OccursLater(a[0], s, what, j);
      }
      ReplaceTextFromLeft(a[1..], what, b, text, n);
      ReplaceTextStep(a[0], s, what, text, n);
      Cons(a, text + ReplaceText(b, what, text, n - 1));
    }
  }

  /** Without an occurrence, or without a replacement left, the text stays. */
  lemma {:induction false} ReplaceTextNowhere(s: string, what: string, text: string, n: nat)
    requires n == 0 || (what != "" && forall j :: 0 <= j <= |s| ==> !OccursAt(s, what, j))
    ensures ReplaceText(s, what, text, n) == s
  {
    if n > 0 {
      assert !OccursAt(s, what, 0);
      if s != "" {
        assert [s[0]] + s[1..] == s;
        forall j | 0 <= j <= |s[1..]|
          ensures !OccursAt(s[1..], what, j)
        {
          OccursLater(s[0], s[1..], what, j);
        }
        ReplaceTextNowhere(s[1..], what, text, n);
        ReplaceTextStep(s[0], s[1..], what, text, n);
      }
    }
  }

  /** The empty text is found before each character, and then at the end. */
  lemma ReplaceTextEmpty(c: char, s: string, text: string, n: nat)
    requires n > 0
    ensures ReplaceText("", "", text, n) == text
    ensures ReplaceText([c] + s, "", text, n) == text + [c] + ReplaceText(s, "", text, n - 1)
  {
    assert ([c] + s)[1..] == s;
    assert text + "" == text;
  }

  // ---------- The seven passes ----------

  function Targets(): seq<string>
  {
    seq(7, i requires 0 <= i < 7 => [SPECIAL[i]])
  }

  /** The i-th replacement string is a backslash and a letter. */
  function Replacements(): seq<string>
  {
    seq(7, i requires 0 <= i < 7 => ['\\', LETTER[i]])
  }

  /** The passes for the first k special characters. */
  function Passes(s: string, k: nat): string
    requires k <= 7
  {
    if k == 0 then s
    else Replace(Passes(s, k - 1), SPECIAL[k - 1], ['\\', LETTER[k - 1]], MAX_REPLACEMENTS)
  }

  method EscapeJson(s: string) returns (r: string)
    ensures r == Passes(s, 7)
    ensures r == Escape(s, 7) <==> FewSpecials(s, 7)
    ensures Unescape(r) == Some(s) <==> FewSpecials(s, 7) && forall c <- s :: !RawControl(c)
  {
    r := ReplaceStrings(s, Targets(), Replacements());
    PassesReplaceEach(s, 7);
    EscapeJsonIsOnePassExactly(s);
    EscapeJsonRoundTrip(s);
  }

  lemma {:induction false} ReplaceTextOfOne(s: string, c: char, text: string, n: nat)
    ensures ReplaceText(s, [c], text, n) == Replace(s, c, text, n)
  {
    if n == 0 {
      ReplaceNone(s, c, text);
    } else if s != "" {
      ReplaceTextOfOne(s[1..], c, text, if s[0] == c then n - 1 else n);
      assert [c] <= s <==> s[0] == c;
    }
  }

  lemma {:induction false} ReplaceNone(s: string, c: char, text: string)
    ensures Replace(s, c, text, 0) == s
  {
    if s != "" {
      ReplaceNone(s[1..], c, text);
    }
  }

  lemma {:induction false} PassesReplaceEach(s: string, k: nat)
    requires k <= 7
    ensures ReplaceEach(s, Targets(), Replacements(), k) == Passes(s, k)
  {
    if k > 0 {
      PassesReplaceEach(s, k - 1);
      ReplaceTextOfOne(Passes(s, k - 1), SPECIAL[k - 1], ['\\', LETTER[k - 1]], MAX_REPLACEMENTS);
    }
  }

  // ---------- One pass over the characters ----------

  /** Position of a character among the first k special ones. */
  function IndexOf(c: char, k: nat): (i: Option<nat>)
    requires k <= 7
    ensures i.Some? ==> i.value < k && SPECIAL[i.value] == c
    ensures i.None? ==> forall j :: 0 <= j < k ==> SPECIAL[j] != c
  {
    if k == 0 then None else if SPECIAL[k - 1] == c then Some(k - 1) else IndexOf(c, k - 1)
  }

  function EscapeChar(c: char, k: nat): string
    requires k <= 7
  {
    match IndexOf(c, k)
    case Some(i) => ['\\', LETTER[i]]
    case None => [c]
  }

  /** Escapes the first k special characters, one character of the input at a time. */
  function Escape(s: string, k: nat): string
    requires k <= 7
  {
    if s == "" then "" else EscapeChar(s[0], k) + Escape(s[1..], k)
  }

  lemma {:induction false} ReplaceOfConcat(s: string, t: string, c: char, text: string, n: nat)
    requires Count(s, c) <= n
    ensures Replace(s + t, c, text, n) == Replace(s, c, text, n) + Replace(t, c, text, n - Count(s, c))
  {
    if s == "" {
      assert s + t == t;
    } else {
      assert (s + t)[0] == s[0] && (s + t)[1..] == s[1..] + t;
      var after := Replace(t, c, text, n - Count(s, c));
      if s[0] == c {
        ReplaceOfConcat(s[1..], t, c, text, n - 1);
        Regroup(text, Replace(s[1..], c, text, n - 1), after);
      } else {
        ReplaceOfConcat(s[1..], t, c, text, n);
        Regroup([s[0]], Replace(s[1..], c, text, n), after);
      }
    }
  }

  /** What later passes do to one character's escape: nothing, unless it is their own character. */
  lemma NextPassOnChar(c: char, k: nat, n: nat)
    requires k < 7 && (c == SPECIAL[k] ==> n > 0)
    ensures Count(EscapeChar(c, k), SPECIAL[k]) == if c == SPECIAL[k] then 1 else 0
    ensures Replace(EscapeChar(c, k), SPECIAL[k], ['\\', LETTER[k]], n) == EscapeChar(c, k + 1)
  {
    var e := EscapeChar(c, k);
    match IndexOf(c, k)
    case None =>
      assert e[1..] == "";
      assert Replace("", SPECIAL[k], ['\\', LETTER[k]], if c == SPECIAL[k] then n - 1 else n) == "";
    case Some(i) =>
      assert e[1..] == [LETTER[i]] && [LETTER[i]][1..] == "";
      assert Count([LETTER[i]], SPECIAL[k]) == 0;
      assert Replace([LETTER[i]], SPECIAL[k], ['\\', LETTER[k]], n) == [LETTER[i]];
  }

  lemma {:induction false} NextPass(s: string, k: nat, n: nat)
    requires k < 7 && Count(s, SPECIAL[k]) <= n
    ensures Replace(Escape(s, k), SPECIAL[k], ['\\', LETTER[k]], n) == Escape(s, k + 1)
    ensures Count(Escape(s, k), SPECIAL[k]) == Count(s, SPECIAL[k])
  {
    if s != "" {
      var e := EscapeChar(s[0], k);
      NextPassOnChar(s[0], k, n);
      CountOfConcat(e, Escape(s[1..], k), SPECIAL[k]);
      ReplaceOfConcat(e, Escape(s[1..], k), SPECIAL[k], ['\\', LETTER[k]], n);
      NextPass(s[1..], k, n - Count(e, SPECIAL[k]));
    }
  }

  predicate FewSpecials(s: string, k: nat)
    requires k <= 7
  {
    forall i :: 0 <= i < k ==> Count(s, SPECIAL[i]) <= 1000
  }

  lemma {:induction false} EscapeNothing(s: string)
    ensures Escape(s, 0) == s
  {
    if s != "" {
      EscapeNothing(s[1..]);
    }
  }

  lemma {:induction false} PassesAreOnePass(s: string, k: nat)
    requires k <= 7 && FewSpecials(s, k)
    ensures Passes(s, k) == Escape(s, k)
  {
    if k == 0 {
      EscapeNothing(s);
    } else {
      PassesAreOnePass(s, k - 1);
      NextPass(s, k - 1, MAX_REPLACEMENTS);
    }
  }

  // ---------- The tables, character by character ----------

  lemma FewSpecialsExactly(s: string)
    ensures FewSpecials(s, 7) <==>
              && Count(s, '\\') <= 1000 && Count(s, '"') <= 1000 && Count(s, '\n') <= 1000 && Count(s, '\r') <= 1000
              && Count(s, '\t') <= 1000 && Count(s, '\U{08}') <= 1000 && Count(s, '\U{0C}') <= 1000
  {
    assert SPECIAL[0] == '\\' && SPECIAL[1] == '\U{08}' && SPECIAL[2] == '\U{0C}' && SPECIAL[3] == '\n'
           && SPECIAL[4] == '\r' && SPECIAL[5] == '\t' && SPECIAL[6] == '"';
    if FewSpecials(s, 7) {
      assert forall i :: 0 <= i < 7 ==> Count(s, SPECIAL[i]) <= 1000;
    }
  }

  /** What each character becomes. */
  lemma EscapeByCharacter(c: char)
    ensures EscapeChar(c, 7) ==
            if c == '\\' then "\\\\" else if c == '"' then "\\\"" else if c == '\n' then "\\n"
            else if c == '\r' then "\\r" else if c == '\t' then "\\t" else if c == '\U{08}' then "\\b"
            else if c == '\U{0C}' then "\\f" else [c]
  {
    var i := IndexOf(c, 7);
    assert SPECIAL[0] == '\\' && SPECIAL[1] == '\U{08}' && SPECIAL[2] == '\U{0C}' && SPECIAL[3] == '\n'
           && SPECIAL[4] == '\r' && SPECIAL[5] == '\t' && SPECIAL[6] == '"';
    assert LETTER[0] == '\\' && LETTER[1] == 'b' && LETTER[2] == 'f' && LETTER[3] == 'n'
           && LETTER[4] == 'r' && LETTER[5] == 't' && LETTER[6] == '"';
  }

  lemma RawControlExactly(c: char)
    ensures RawControl(c) <==>
              c < ' ' && c != '\n' && c != '\r' && c != '\t' && c != '\U{08}' && c != '\U{0C}'
  {
    assert SPECIAL[1] == '\U{08}' && SPECIAL[2] == '\U{0C}' && SPECIAL[3] == '\n' && SPECIAL[4] == '\r'
           && SPECIAL[5] == '\t';
  }

  // ---------- More than 1000 of one character ----------

  lemma {:induction false} LengthAfterReplace(s: string, c: char, d: char, n: nat)
    ensures |Replace(s, c, ['\\', d], n)| == |s| + if Count(s, c) <= n then Count(s, c) else n
  {
    if s != "" {
      LengthAfterReplace(s[1..], c, d, if s[0] == c && n > 0 then n - 1 else n);
    }
  }

  /** A replacement changes the count of no other special character, apart from backslash. */
  lemma {:induction false} CountAfterReplace(s: string, c: char, d: char, n: nat, x: char)
    requires x != c && x != d && x != '\\'
    ensures Count(Replace(s, c, ['\\', d], n), x) == Count(s, x)
  {
    if s != "" {
      var n' := if s[0] == c && n > 0 then n - 1 else n;
      CountAfterReplace(s[1..], c, d, n', x);
      var rest := Replace(s[1..], c, ['\\', d], n');
      if s[0] == c && n > 0 {
        CountOfConcat(['\\', d], rest, x);
        assert ['\\', d][1..] == [d] && [d][1..] == "";
      }
    }
  }

  function Capped(n: nat): nat
  {
    if n <= MAX_REPLACEMENTS then n else MAX_REPLACEMENTS
  }

  function Specials(s: string, k: nat): nat
    requires k <= 7
  {
    if k == 0 then 0 else Specials(s, k - 1) + Count(s, SPECIAL[k - 1])
  }

  function CappedSpecials(s: string, k: nat): nat
    requires k <= 7
  {
    if k == 0 then 0 else CappedSpecials(s, k - 1) + Capped(Count(s, SPECIAL[k - 1]))
  }

  lemma {:induction false} LengthOfPasses(s: string, k: nat)
    requires k <= 7
    ensures |Passes(s, k)| == |s| + CappedSpecials(s, k)
    ensures forall i :: k <= i < 7 ==> Count(Passes(s, k), SPECIAL[i]) == Count(s, SPECIAL[i])
  {
    if k > 0 {
      LengthOfPasses(s, k - 1);
      LengthAfterReplace(Passes(s, k - 1), SPECIAL[k - 1], LETTER[k - 1], MAX_REPLACEMENTS);
      forall i | k <= i < 7
        ensures Count(Passes(s, k), SPECIAL[i]) == Count(s, SPECIAL[i])
      {
        CountAfterReplace(Passes(s, k - 1), SPECIAL[k - 1], LETTER[k - 1], MAX_REPLACEMENTS, SPECIAL[i]);
      }
    }
  }

  lemma {:induction false} LengthOfEscape(s: string, k: nat)
    requires k <= 7
    ensures |Escape(s, k)| == |s| + Specials(s, k)
  {
    if s == "" {
      NoSpecials(k);
    } else {
      LengthOfEscape(s[1..], k);
      SpecialsOfFirst(s, k);
    }
  }

  lemma NoSpecials(k: nat)
    requires k <= 7
    ensures Specials("", k) == 0
  {
  }

  lemma {:induction false} SpecialsOfFirst(s: string, k: nat)
    requires k <= 7 && s != ""
    ensures Specials(s, k) == Specials(s[1..], k) + if IndexOf(s[0], k).Some? then 1 else 0
  {
    if k > 0 {
      SpecialsOfFirst(s, k - 1);
    }
  }

  lemma {:induction false} CappingLoses(s: string, k: nat)
    requires k <= 7
    ensures CappedSpecials(s, k) <= Specials(s, k)
    ensures CappedSpecials(s, k) == Specials(s, k) <==> FewSpecials(s, k)
  {
    if k > 0 {
      CappingLoses(s, k - 1);
      assert FewSpecials(s, k) <==> FewSpecials(s, k - 1) && Count(s, SPECIAL[k - 1]) <= MAX_REPLACEMENTS;
    }
  }

  /** The seven passes are the single-pass escape exactly when no special character occurs over 1000 times. */
  lemma EscapeJsonIsOnePassExactly(s: string)
    ensures Passes(s, 7) == Escape(s, 7) <==> FewSpecials(s, 7)
  {
    if FewSpecials(s, 7) {
      PassesAreOnePass(s, 7);
    } else {
      LengthOfPasses(s, 7);
      LengthOfEscape(s, 7);
      CappingLoses(s, 7);
    }
  }

  // ---------- Reading the result back, section 7 of RFC 8259 ----------

  /** What a two-character escape stands for. */
  function Meaning(letter: char): Option<char>
  {
    match letter
    case '"' => Some('"')
    case '\\' => Some('\\')
    case '/' => Some('/')
    case 'b' => Some(BACKSPACE)
    case 'f' => Some(FORM_FEED)
    case 'n' => Some('\n')
    case 'r' => Some('\r')
    case 't' => Some('\t')
    case _ => None
  }

  predicate IsHex(c: char)
  {
    '0' <= c <= '9' || 'a' <= c <= 'f' || 'A' <= c <= 'F'
  }

  function HexValue(c: char): (v: nat)
    requires IsHex(c)
    ensures v < 16
  {
    if c <= '9' then (c - '0') as nat else if c <= 'F' then (c - 'A') as nat + 10 else (c - 'a') as nat + 10
  }

  predicate IsUnicodeEscape(s: string)
  {
    |s| >= 6 && s[0] == '\\' && s[1] == 'u' && IsHex(s[2]) && IsHex(s[3]) && IsHex(s[4]) && IsHex(s[5])
  }

  function CodeUnit(s: string): (v: nat)
    requires IsUnicodeEscape(s)
    ensures v < 0x1_0000
  {
    HexValue(s[2]) * 0x1000 + HexValue(s[3]) * 0x100 + HexValue(s[4]) * 0x10 + HexValue(s[5])
  }

  /** The character at the front of a text and its length there; half of a surrogate pair is no character. */
  function First(s: string): (r: Option<(char, nat)>)
    requires s != ""
    ensures r.Some? ==> 0 < r.value.1 <= |s|
  {
    if s[0] == '"' || s[0] < ' ' then None
    else if s[0] != '\\' then Some((s[0], 1))
    else if |s| == 1 then None
    else if s[1] != 'u' then match Meaning(s[1]) case None => None case Some(c) => Some((c, 2))
    else if !IsUnicodeEscape(s) then None
    else
      var unit := CodeUnit(s);
      if unit < 0xD800 || 0xE000 <= unit then Some((unit as char, 6))
      else if unit < 0xDC00 && IsUnicodeEscape(s[6..]) && 0xDC00 <= CodeUnit(s[6..]) < 0xE000 then
        Some(((0x1_0000 + (unit - 0xD800) * 0x400 + (CodeUnit(s[6..]) - 0xDC00)) as char, 12))
      else None
  }

  /** The text between the quotes of a JSON string, decoded; None when it is not such a text. */
  function Unescape(s: string): Option<string>
    decreases |s|
  {
    if s == "" then Some("")
    else match First(s)
      case None => None
      case Some((c, n)) => match Unescape(s[n..]) case None => None case Some(t) => Some([c] + t)
  }

  /** The control characters EscapeJson passes through, though JSON wants them escaped. */
  predicate RawControl(c: char)
  {
    c < ' ' && c !in SPECIAL
  }

  lemma MeaningOfLetter(i: nat)
    requires i < 7
    ensures Meaning(LETTER[i]) == Some(SPECIAL[i])
  {
  }

  /** Decoding undoes one character's escape and goes on after it. */
  lemma UnescapeChar(c: char, rest: string)
    ensures Unescape(EscapeChar(c, 7) + rest) ==
            if RawControl(c) || Unescape(rest).None? then None else Some([c] + Unescape(rest).value)
  {
    var e := EscapeChar(c, 7);
    match IndexOf(c, 7)
    case Some(i) =>
      assert (e + rest)[2..] == rest;
      MeaningOfLetter(i);
    case None =>
      assert (e + rest)[1..] == rest;
      assert c != SPECIAL[0] && c != SPECIAL[6];
  }

  lemma {:induction false} EscapeThenUnescape(s: string)
    ensures Unescape(Escape(s, 7)) == if exists c <- s :: RawControl(c) then None else Some(s)
  {
    if s != "" {
      EscapeThenUnescape(s[1..]);
      UnescapeChar(s[0], Escape(s[1..], 7));
      assert s == [s[0]] + s[1..];
      assert (exists c <- s :: RawControl(c)) <==> RawControl(s[0]) || (exists c <- s[1..] :: RawControl(c));
    }
  }

  /** Every special character of a decoded text took two characters to write, or more. */
  lemma {:induction false} SpecialsTakeTwo(t: string)
    requires Unescape(t).Some?
    ensures |t| >= |Unescape(t).value| + Specials(Unescape(t).value, 7)
    decreases |t|
  {
    if t == "" {
      NoSpecials(7);
    } else {
      var (c, n) := First(t).value;
      var s := Unescape(t).value;
      SpecialsTakeTwo(t[n..]);
      assert s[1..] == Unescape(t[n..]).value;
      SpecialsOfFirst(s, 7);
    }
  }

  /**
   So a JSON reader gets the input back exactly when no special character occurs over 1000 times
   and there is no other control character.
   */
  lemma EscapeJsonRoundTrip(s: string)
    ensures Unescape(Passes(s, 7)) == Some(s) <==> FewSpecials(s, 7) && forall c <- s :: !RawControl(c)
  {
    if FewSpecials(s, 7) {
      PassesAreOnePass(s, 7);
      EscapeThenUnescape(s);
    } else {
      LengthOfPasses(s, 7);
      CappingLoses(s, 7);
      if Unescape(Passes(s, 7)) == Some(s) {
        SpecialsTakeTwo(Passes(s, 7));
        assert false;
      }
    }
  }

  /** Escapes as section 7 of RFC 8259 lists them, one of each kind. */
  lemma UnescapeByName()
    ensures First("\\\"") == Some(('"', 2)) && First("\\\\") == Some(('\\', 2)) && First("\\/") == Some(('/', 2))
    ensures First("\\b") == Some(('\U{08}', 2)) && First("\\f") == Some(('\U{0C}', 2))
    ensures First("\\n") == Some(('\n', 2)) && First("\\r") == Some(('\r', 2)) && First("\\t") == Some(('\t', 2))
    ensures First("\\x") == None && First("\\") == None && First("\"") == None && First("\n") == None
    ensures First("\\u0041") == Some(('A', 6)) && First("\\u00e9") == Some(('\U{E9}', 6))
    ensures First("\\u20AC") == Some(('\U{20AC}', 6))
    ensures First("\\uD83D\\uDE00") == Some(('\U{1F600}', 12)) && First("\\uD83D") == None && First("\\u004") == None
  {
    assert "\\uD83D\\uDE00"[6..] == "\\uDE00";
  }
}
