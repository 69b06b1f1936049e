/** The cleaning of one facet value: lower case (of ASCII letters), trimmed, runs of white space
collapsed. */
module Words {
  import opened Sequences

  /** White space and line terminators of ECMAScript, as `trim`, `\s` and `parseInt` see them. */
  predicate IsSpace(c: char) {
    || c == ' ' || '\t' <= c <= '\r' || c == '\U{A0}' || c == '\U{1680}' || '\U{2000}' <= c <= '\U{200A}'
    || c == '\U{2028}' || c == '\U{2029}' || c == '\U{202F}' || c == '\U{205F}' || c == '\U{3000}' || c == '\U{FEFF}'
  }

  function LowerChar(c: char): char {
    if 'A' <= c <= 'Z' then (c as int + 32) as char else c
  }

  function Lower(s: string): (t: string)
    ensures |t| == |s| && forall i | 0 <= i < |s| :: t[i] == LowerChar(s[i])
  {
    if s == "" then "" else Lower(s[..|s| - 1]) + [LowerChar(s[|s| - 1])]
  }

  function TrimStart(s: string): (t: string)
    ensures |t| <= |s| && (t != "" ==> !IsSpace(t[0]))
  {
    if s != "" && IsSpace(s[0]) then TrimStart(s[1..]) else s
  }

  function TrimEnd(s: string): (t: string)
    ensures t <= s && (t != "" ==> !IsSpace(t[|t| - 1]))
  {
    if s != "" && IsSpace(s[|s| - 1]) then TrimEnd(s[..|s| - 1]) else s
  }

  /** Every run of white space becomes one blank. */
  function Collapse(s: string): string
    decreases |s|
  {
    if s == "" then ""
    else if IsSpace(s[0]) then " " + Collapse(TrimStart(s[1..]))
    else [s[0]] + Collapse(s[1..])
  }

  function Clean(v: string): string {
    Collapse(TrimEnd(TrimStart(Lower(v))))
  }

  // ---------------------------------------------------------------- words

  function FirstWord(s: string): (w: string)
    ensures w <= s && forall c | c in w :: !IsSpace(c)
    ensures |w| < |s| ==> IsSpace(s[|w|])
  {
    if s == "" || IsSpace(s[0]) then "" else [s[0]] + FirstWord(s[1..])
  }

  /** The maximal runs of characters that are not white space. */
  function Split(s: string): (ws: seq<string>)
    decreases |s|
  {
    var t := TrimStart(s);
    if t == "" then [] else [FirstWord(t)] + Split(t[|FirstWord(t)|..])
  }

  function Join(parts: seq<string>, separator: string): string {
    if parts == [] then ""
    else if |parts| == 1 then parts[0]
    else parts[0] + separator + Join(parts[1..], separator)
  }

  predicate IsWord(w: string) {
    w != "" && forall c | c in w :: !IsSpace(c)
  }

  lemma {:induction false} SplitGivesWords(s: string)
    ensures forall w | w in Split(s) :: IsWord(w)
    decreases |s|
  {
    var t := TrimStart(s);
    if t != "" {
      SplitGivesWords(t[|FirstWord(t)|..]);
    }
  }

  lemma {:induction false} SplitIgnoresStart(s: string)
    ensures Split(TrimStart(s)) == Split(s)
  {
    if s != "" && IsSpace(s[0]) {
      SplitIgnoresStart(s[1..]);
    }
  }

  lemma {:induction false} FirstWordThen(w: string, rest: string)
    requires forall c | c in w :: !IsSpace(c)
    requires rest != "" ==> IsSpace(rest[0])
    ensures FirstWord(w + rest) == w
  {
    var s := w + rest;
    if w != "" {
      assert s[0] == w[0] && s[0] in w && s[1..] == w[1..] + rest;
      FirstWordThen(w[1..], rest);
    }
  }

  lemma {:induction false} SplitFirst(w: string, rest: string)
    requires IsWord(w) && (rest != "" ==> IsSpace(rest[0]))
    ensures Split(w + rest) == [w] + Split(rest)
  {
    var s := w + rest;
    assert s[0] == w[0] && w[0] in w;
    FirstWordThen(w, rest);
    assert s[|w|..] == rest;
  }

  lemma {:induction false} SplitSpaces(s: string)
    requires forall c | c in s :: IsSpace(c)
    ensures TrimStart(s) == "" && Split(s) == []
  {
    if s != "" {
      SplitSpaces(s[1..]);
    }
  }

  lemma {:induction false} SplitIgnoresLastSpace(s: string, c: char)
    requires IsSpace(c)
    ensures Split(s + [c]) == Split(s)
    decreases |s|
  {
    if s == "" {
      assert s + [c] == [c];
      SplitSpaces([c]);
    } else if IsSpace(s[0]) {
      assert (s + [c])[1..] == s[1..] + [c];
      SplitIgnoresLastSpace(s[1..], c);
      SplitIgnoresStart(s);
      SplitIgnoresStart(s + [c]);
      SplitIgnoresStart(s[1..]);
      SplitIgnoresStart(s[1..] + [c]);
    } else {
      var w, rest := FirstWord(s), s[|FirstWord(s)|..];
      assert s == w + rest && s + [c] == w + (rest + [c]);
      SplitIgnoresLastSpace(rest, c);
      SplitFirst(w, rest);
      SplitFirst(w, rest + [c]);
    }
  }

  lemma {:induction false} SplitIgnoresEnd(s: string)
    ensures Split(TrimEnd(s)) == Split(s)
  {
    if s != "" && IsSpace(s[|s| - 1]) {
      SplitIgnoresEnd(s[..|s| - 1]);
      SplitIgnoresLastSpace(s[..|s| - 1], s[|s| - 1]);
      SplitLast(s);
    }
  }

  lemma {:induction false} CollapseWord(w: string, rest: string)
    requires forall c | c in w :: !IsSpace(c)
    ensures Collapse(w + rest) == w + Collapse(rest)
  {
    var s := w + rest;
    if w == "" {
      assert s == rest;
    } else {
      assert s[0] == w[0] && s[0] in w && s[1..] == w[1..] + rest;
      CollapseWord(w[1..], rest);
      assert [w[0]] + (w[1..] + Collapse(rest)) == w + Collapse(rest);
    }
  }

  lemma {:induction false} TrimStartKeepsEnd(s: string)
    requires s != "" && !IsSpace(s[|s| - 1])
    ensures TrimStart(s) != "" && TrimStart(s)[|TrimStart(s)| - 1] == s[|s| - 1]
  {
    if IsSpace(s[0]) {
      TrimStartKeepsEnd(s[1..]);
    }
  }

  /** A trimmed string collapses to its words with single blanks between them. */
  lemma {:induction false} CollapseIsJoin(s: string)
    requires s != "" ==> !IsSpace(s[0]) && !IsSpace(s[|s| - 1])
    ensures Collapse(s) == Join(Split(s), " ")
    decreases |s|
  {
    if s != "" {
      var w, rest := FirstWord(s), s[|FirstWord(s)|..];
      assert s == w + rest;
      CollapseWord(w, rest);
      SplitFirst(w, rest);
      if rest == "" {
        SplitSpaces("");
        Units(w);
      } else {
        var t := TrimStart(rest[1..]);
        RestKeepsEnd(s, rest);
        CollapseIsJoin(t);
        SplitIgnoresStart(rest);
        SplitIgnoresStart(rest[1..]);
        JoinFirst(w, Split(t));
      }
    }
  }

  lemma {:induction false} RestKeepsEnd(s: string, rest: string)
    requires rest != "" && |rest| <= |s| && s[|s| - |rest|..] == rest && IsSpace(rest[0]) && !IsSpace(s[|s| - 1])
    ensures var t := TrimStart(rest[1..]); t != "" && t[|t| - 1] == s[|s| - 1]
  {
    assert rest[|rest| - 1] == s[|s| - 1];
    assert |rest| > 1 && rest[1..][|rest| - 2] == rest[|rest| - 1];
    TrimStartKeepsEnd(rest[1..]);
  }

  lemma {:induction false} JoinFirst(w: string, ws: seq<string>)
    requires ws != []
    ensures Join([w] + ws, " ") == w + (" " + Join(ws, " "))
  {
    PrefixAndRest([w], ws);
    Assoc(w, " ", Join(ws, " "));
  }

  /** MAIN: cleaning keeps exactly the lower-cased words of a value. */
  lemma {:induction false} CleanIsWords(v: string)
    ensures Clean(v) == Join(Split(Lower(v)), " ")
  {
    var s := TrimStart(Lower(v));
    var t := TrimEnd(s);
    SplitIgnoresStart(Lower(v));
    SplitIgnoresEnd(s);
    assert t != "" ==> t[0] == s[0];
    CollapseIsJoin(t);
  }

  lemma {:induction false} SplitOfJoin(ws: seq<string>)
    requires forall w | w in ws :: IsWord(w)
    ensures Split(Join(ws, " ")) == ws
  {
    if ws == [] {
      SplitSpaces("");
    } else if |ws| == 1 {
      SplitSpaces("");
      SplitFirst(ws[0], "");
      assert ws[0] + "" == ws[0];
    } else {
      var tail := Join(ws[1..], " ");
      SplitOfJoin(ws[1..]);
      SplitFirst(ws[0], " " + tail);
      Assoc(ws[0], " ", tail);
      SplitBlank(tail);
      SplitAt(ws, 1);
      assert ws[..1] == [ws[0]];
    }
  }

  lemma {:induction false} SplitBlank(s: string)
    ensures Split(" " + s) == Split(s)
  {
    assert (" " + s)[1..] == s;
    SplitIgnoresStart(" " + s);
    SplitIgnoresStart(s);
  }

  /** MAIN: two values are cleaned to the same string exactly when they consist of the same words up
      to case. */
  lemma {:induction false} CleanSameIff(v: string, w: string)
    ensures Clean(v) == Clean(w) <==> Split(Lower(v)) == Split(Lower(w))
  {
    CleanIsWords(v);
    CleanIsWords(w);
    SplitGivesWords(Lower(v));
    SplitGivesWords(Lower(w));
    SplitOfJoin(Split(Lower(v)));
    SplitOfJoin(Split(Lower(w)));
  }

  // ---------------------------------------------------------------- tidy strings

  /** Lower case, only single blanks, none of them at an end. */
  predicate Tidy(s: string) {
    && (forall c | c in s :: LowerChar(c) == c && (IsSpace(c) ==> c == ' '))
    && (s != "" ==> !IsSpace(s[0]) && !IsSpace(s[|s| - 1]))
    && (forall i | 0 <= i < |s| - 1 :: IsSpace(s[i]) ==> !IsSpace(s[i + 1]))
  }

  lemma {:induction false} CollapseTidy(s: string)
    requires forall c | c in s :: IsSpace(c) ==> c == ' '
    requires forall i | 0 <= i < |s| - 1 :: IsSpace(s[i]) ==> !IsSpace(s[i + 1])
    ensures Collapse(s) == s
    decreases |s|
  {
    if s != "" {
      assert s[0] in s && s == [s[0]] + s[1..];
      CollapseTidy(s[1..]);
      if IsSpace(s[0]) && |s| > 1 {
        assert s[1..][0] == s[1];
      }
    }
  }

  lemma {:induction false} LowerTidy(s: string)
    requires forall c | c in s :: LowerChar(c) == c
    ensures Lower(s) == s
  {
  }

  lemma {:induction false} TidyStays(s: string)
    requires Tidy(s)
    ensures Clean(s) == s
  {
    LowerTidy(s);
    CollapseTidy(s);
  }

  lemma {:induction false} TidyConcat(a: string, middle: string, b: string)
    requires Tidy(a) && Tidy(b) && a != "" && b != "" && Tidy("x" + middle + "x")
    ensures Tidy(a + middle + b)
  {
    var s, p, n, m := a + middle + b, "x" + middle + "x", |a|, |middle|;
    forall c | c in s
      ensures LowerChar(c) == c && (IsSpace(c) ==> c == ' ')
    {
      if c !in a && c !in b {
        assert c in p;
      }
    }
    forall i | 0 <= i < |s| - 1 && IsSpace(s[i])
      ensures !IsSpace(s[i + 1])
    {
      if i < n - 1 {
        assert s[i] == a[i] && s[i + 1] == a[i + 1];
      } else if i < n + m {
        assert i >= n;
        assert s[i] == p[i - n + 1] && (i + 1 < n + m ==> s[i + 1] == p[i - n + 2]);
        assert i + 1 == n + m ==> s[i + 1] == b[0];
      } else {
        assert s[i] == b[i - n - m] && s[i + 1] == b[i - n - m + 1];
      }
    }
  }

  lemma {:induction false} JoinTidy(parts: seq<string>, separator: string)
    requires forall p | p in parts :: Tidy(p) && p != ""
    requires Tidy("x" + separator + "x")
    ensures Tidy(Join(parts, separator))
    ensures parts != [] ==> Join(parts, separator) != ""
  {
    if |parts| > 1 {
      JoinTidy(parts[1..], separator);
      TidyConcat(parts[0], separator, Join(parts[1..], separator));
    }
  }

  lemma {:induction false} LowerIsLower(v: string)
    ensures forall c | c in Lower(v) :: LowerChar(c) == c
  {
    forall c | c in Lower(v)
      ensures LowerChar(c) == c
    {
      var i :| 0 <= i < |Lower(v)| && Lower(v)[i] == c;
      assert c == LowerChar(v[i]);
    }
  }

  lemma {:induction false} SplitMembers(s: string)
    ensures forall w, c | w in Split(s) && c in w :: c in s
    decreases |s|
  {
    var t := TrimStart(s);
    TrimStartMembers(s);
    if t != "" {
      SplitMembers(t[|FirstWord(t)|..]);
    }
  }

  lemma {:induction false} TrimStartMembers(s: string)
    ensures forall c | c in TrimStart(s) :: c in s
  {
    if s != "" && IsSpace(s[0]) {
      TrimStartMembers(s[1..]);
    }
  }

  lemma {:induction false} CleanIsTidy(v: string)
    ensures Tidy(Clean(v))
  {
    CleanIsWords(v);
    WordsAreTidy(v);
    BlankIsTidy();
    JoinTidy(Split(Lower(v)), " ");
  }

  lemma {:induction false} WordsAreTidy(v: string)
    ensures forall w | w in Split(Lower(v)) :: Tidy(w) && w != ""
  {
    LowerIsLower(v);
    SplitMembers(Lower(v));
    SplitGivesWords(Lower(v));
    forall w | w in Split(Lower(v))
      ensures Tidy(w) && w != ""
    {
      assert IsWord(w);
    }
  }

  lemma {:induction false} BlankIsTidy()
    ensures Tidy("x" + " " + "x")
  {
  }
}
