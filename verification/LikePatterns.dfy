/** SQL LIKE, and the patterns built for contains, startswith and endswith. */
module LikePatterns {

  /** LIKE with % for any text, _ for any character and \ before a character meant literally. */
  predicate Like(p: string, s: string)
    decreases |p| + |s|
  {
    if p == "" then s == ""
    else if p[0] == '%' then Like(p[1..], s) || (s != "" && Like(p, s[1..]))
    else if s == "" then false
    else if p[0] == '_' then Like(p[1..], s[1..])
    else if p[0] == '\\' && |p| > 1 then p[1] == s[0] && Like(p[2..], s[1..])
    else p[0] == s[0] && Like(p[1..], s[1..])
  }

  /** What each character of a pattern matches; these laws decide every pattern. */
  lemma LikeByCharacter(c: char, p: string, s: string)
    ensures Like("", s) <==> s == ""
    ensures Like("_" + p, s) <==> s != "" && Like(p, s[1..])
    ensures Like("%" + p, s) <==> exists i :: 0 <= i <= |s| && Like(p, s[i..])
    ensures Like("\\" + [c] + p, s) <==> s != "" && s[0] == c && Like(p, s[1..])
    ensures c != '_' && c != '%' && c != '\\' ==> (Like([c] + p, s) <==> s != "" && s[0] == c && Like(p, s[1..]))
  {
    assert ("_" + p)[1..] == p && ([c] + p)[1..] == p;
    assert ("\\" + [c] + p)[0] == '\\' && ("\\" + [c] + p)[1] == c && ("\\" + [c] + p)[2..] == p;
    AnyThen(p, s);
  }

  predicate Plain(v: string)
  {
    forall c <- v :: c != '%' && c != '_' && c != '\\'
  }

  ghost predicate Substring(v: string, s: string)
  {
    exists i :: 0 <= i <= |s| && v <= s[i..]
  }

  predicate Suffix(v: string, s: string)
  {
    |v| <= |s| && s[|s| - |v|..] == v
  }

  lemma {:induction false} LiteralThen(v: string, p: string, s: string)
    requires Plain(v)
    ensures Like(v + p, s) <==> v <= s && Like(p, s[|v|..])
    decreases |v|
  {
    if v == "" {
      assert v + p == p && s[0..] == s;
    } else {
      assert v[0] in v && (v + p)[1..] == v[1..] + p;
      assert forall c <- v[1..] :: c in v;
      if s != "" && s[0] == v[0] {
        LiteralThen(v[1..], p, s[1..]);
        assert v <= s <==> v[1..] <= s[1..];
        if v <= s {
          assert s[1..][|v| - 1..] == s[|v|..];
        }
      }
    }
  }

  lemma {:induction false} AnyThen(p: string, s: string)
    ensures Like("%" + p, s) <==> exists i :: 0 <= i <= |s| && Like(p, s[i..])
    decreases |s|
  {
    assert ("%" + p)[1..] == p && s[0..] == s;
    if s != "" {
      AnyThen(p, s[1..]);
      assert forall i :: 0 <= i < |s| ==> s[1..][i..] == s[i + 1..];
      if i :| 0 <= i <= |s[1..]| && Like(p, s[1..][i..]) {
        assert Like(p, s[i + 1..]);
      }
      if i :| 0 < i <= |s| && Like(p, s[i..]) {
        assert s[1..][i - 1..] == s[i..];
      }
    }
  }

  lemma AnyMatches(s: string)
    ensures Like("%", s)
  {
  }

  /** The three patterns match exactly the texts that start with, end with or contain a plain value. */
  lemma PatternsMean(v: string, s: string)
    requires Plain(v)
    ensures Like(v + "%", s) <==> v <= s
    ensures Like("%" + v, s) <==> Suffix(v, s)
    ensures Like("%" + v + "%", s) <==> Substring(v, s)
  {
    LiteralThen(v, "%", s);
    if v <= s {
      AnyMatches(s[|v|..]);
    }
    AnyThen(v, s);
    forall i | 0 <= i <= |s|
      ensures Like(v, s[i..]) <==> v == s[i..]
      ensures Like(v + "%", s[i..]) <==> v <= s[i..]
    {
      LiteralThen(v, "", s[i..]);
      assert v + "" == v;
      LiteralThen(v, "%", s[i..]);
      if v <= s[i..] {
        AnyMatches(s[i..][|v|..]);
      }
    }
    AnyThen(v + "%", s);
    assert "%" + v + "%" == "%" + (v + "%");
  }

  // ---------- Values with wildcards ----------

  /** A text a pattern matches: as short as the pattern without its wildcards and escapes. */
  function Sample(p: string): string
    decreases |p|
  {
    if p == "" then ""
    else if p[0] == '%' then Sample(p[1..])
    else if p[0] == '_' then "x" + Sample(p[1..])
    else if p[0] == '\\' && |p| > 1 then [p[1]] + Sample(p[2..])
    else [p[0]] + Sample(p[1..])
  }

  lemma {:induction false} SampleMatches(p: string)
    ensures Like(p, Sample(p))
    decreases |p|
  {
    if p != "" {
      if p[0] == '\\' && |p| > 1 {
        SampleMatches(p[2..]);
        assert ([p[1]] + Sample(p[2..]))[1..] == Sample(p[2..]);
      } else {
        SampleMatches(p[1..]);
        assert ("x" + Sample(p[1..]))[1..] == Sample(p[1..]);
        assert ([p[0]] + Sample(p[1..]))[1..] == Sample(p[1..]);
      }
    }
  }

  lemma {:induction false} SampleOfValue(v: string)
    ensures |Sample(v + "%")| <= |v|
    ensures Sample(v + "%") == v ==> Plain(v)
    decreases |v|
  {
    if v == "" {
      assert v + "%" == "%" && "%"[1..] == "";
      assert Sample("") == "";
    } else {
      assert (v + "%")[1..] == v[1..] + "%";
      assert v == [v[0]] + v[1..];
      SampleOfValue(v[1..]);
      if v[0] == '\\' {
        if |v| > 1 {
          assert (v + "%")[2..] == v[2..] + "%";
          SampleOfValue(v[2..]);
        } else {
          assert (v + "%")[2..] == "" && Sample("") == "";
        }
      }
    }
  }

  /** Beyond plain values startswith and contains always accept some text they should not. */
  lemma PlainValuesExactly(v: string)
    ensures (forall s :: Like(v + "%", s) <==> v <= s) <==> Plain(v)
    ensures (forall s :: Like("%" + v + "%", s) <==> Substring(v, s)) <==> Plain(v)
  {
    if Plain(v) {
      forall s
        ensures (Like(v + "%", s) <==> v <= s) && (Like("%" + v + "%", s) <==> Substring(v, s))
      {
        PatternsMean(v, s);
      }
    } else {
      var s := Sample(v + "%");
      SampleMatches(v + "%");
      SampleOfValue(v);
      AnyThen(v + "%", s);
      assert s[0..] == s && "%" + v + "%" == "%" + (v + "%");
      assert Like(v + "%", s) && Like("%" + v + "%", s) && !(v <= s);
      assert forall i :: 0 <= i <= |s| && v <= s[i..] ==> i == 0;
    }
  }

  /** Plain but for a last backslash, which nothing follows and which then means itself. */
  predicate PlainButLast(v: string)
  {
    Plain(v) || (v != "" && v[|v| - 1] == '\\' && Plain(v[..|v| - 1]))
  }

  lemma {:induction false} SampleOfPattern(v: string)
    ensures |Sample(v)| <= |v|
    ensures Sample(v) == v ==> PlainButLast(v)
    decreases |v|
  {
    if v != "" {
      assert v == [v[0]] + v[1..];
      if v[0] == '\\' && |v| > 1 {
        SampleOfPattern(v[2..]);
      } else {
        SampleOfPattern(v[1..]);
        if |v| > 1 && Sample(v) == v {
          assert v[..|v| - 1] == [v[0]] + v[1..][..|v| - 2];
        }
      }
    }
  }

  lemma EndsIsSuffix(v: string, s: string)
    requires PlainButLast(v)
    ensures Like("%" + v, s) <==> Suffix(v, s)
  {
    if Plain(v) {
      PatternsMean(v, s);
    } else {
      var u := v[..|v| - 1];
      assert v == u + "\\";
      AnyThen(v, s);
      forall i | 0 <= i <= |s|
        ensures Like(v, s[i..]) <==> v == s[i..]
      {
        LiteralThen(u, "\\", s[i..]);
        if u <= s[i..] {
        }
      }
    }
  }

  /** endswith is exact on plain values and, where a last backslash means itself, with one at the end. */
  lemma EndsWithExactly(v: string)
    ensures (forall s :: Like("%" + v, s) <==> Suffix(v, s)) <==> PlainButLast(v)
    ensures v == "" || v[|v| - 1] != '\\' ==> ((forall s :: Like("%" + v, s) <==> Suffix(v, s)) <==> Plain(v))
  {
    if PlainButLast(v) {
      forall s
        ensures Like("%" + v, s) <==> Suffix(v, s)
      {
        EndsIsSuffix(v, s);
      }
    } else {
      var s := Sample(v);
      SampleMatches(v);
      SampleOfPattern(v);
      AnyThen(v, s);
      assert s[0..] == s;
      assert Like("%" + v, s) && !Suffix(v, s);
    }
  }
}
