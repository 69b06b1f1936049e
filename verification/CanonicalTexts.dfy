/** What the canonical texts determine: separators are not escaped, so not always the values. */
module CanonicalTexts {
  import opened Grammar
  import opened Sequences
  import opened Words
  import opened Wrappers

  // ---------------------------------------------------------------- splitting at a separator

  /** The pieces of a text between separators, one more than there are separators. */
  function SplitOn(s: string, c: char): (ps: seq<string>)
    ensures ps != []
  {
    if s == "" then [""] else Grow(s[0], SplitOn(s[1..], c), c)
  }

  /** The pieces of all texts of a list. */
  function Pieces(xs: seq<string>, c: char): (ps: seq<string>)
    ensures ps == [] <==> xs == []
  {
    if xs == [] then [] else SplitOn(xs[0], c) + Pieces(xs[1..], c)
  }

  lemma {:induction false} JoinCons(x: string, xs: seq<string>, c: char)
    requires xs != []
    ensures Join([x] + xs, [c]) == x + ([c] + Join(xs, [c]))
  {
    PrefixAndRest([x], xs);
    Assoc(x, [c], Join(xs, [c]));
  }

  lemma {:induction false} JoinOfSplit(s: string, c: char)
    ensures Join(SplitOn(s, c), [c]) == s
  {
    if s != "" {
      var ps := SplitOn(s[1..], c);
      JoinOfSplit(s[1..], c);
      if s[0] == c {
        JoinCons("", ps, c);
        assert s == [c] + s[1..];
      } else {
        JoinLonger([s[0]], ps, c);
        assert s == [s[0]] + s[1..];
      }
    }
  }

  /** Text put in front of the first piece stands in front of the whole. */
  lemma {:induction false} JoinLonger(a: string, ps: seq<string>, c: char)
    requires ps != []
    ensures Join([a + ps[0]] + ps[1..], [c]) == a + Join(ps, [c])
  {
    SplitAt(ps, 1);
    assert ps[..1] == [ps[0]];
    if |ps| > 1 {
      JoinCons(a + ps[0], ps[1..], c);
      JoinCons(ps[0], ps[1..], c);
      Assoc(a, ps[0], [c] + Join(ps[1..], [c]));
    } else {
      assert [a + ps[0]] + ps[1..] == [a + ps[0]];
    }
  }

  lemma {:induction false} SplitAround(a: string, b: string, c: char)
    ensures SplitOn(a + ([c] + b), c) == SplitOn(a, c) + SplitOn(b, c)
  {
    var s := a + ([c] + b);
    if a == "" {
      assert s == [c] + b && s[1..] == b;
    } else {
      SplitAround(a[1..], b, c);
      assert s[1..] == a[1..] + ([c] + b);
      Grown(a[0], SplitOn(a[1..], c), SplitOn(b, c), c);
    }
  }

  /** The pieces after one more character at the start. */
  function Grow(x: char, ps: seq<string>, c: char): seq<string>
    requires ps != []
  {
    if x == c then [""] + ps else [[x] + ps[0]] + ps[1..]
  }

  lemma {:induction false} Grown(x: char, ps: seq<string>, qs: seq<string>, c: char)
    requires ps != []
    ensures Grow(x, ps + qs, c) == Grow(x, ps, c) + qs
  {
    Assoc([""], ps, qs);
    Assoc([[x] + ps[0]], ps[1..], qs);
    assert (ps + qs)[0] == ps[0] && (ps + qs)[1..] == ps[1..] + qs;
  }

  lemma {:induction false} SplitOfJoined(xs: seq<string>, c: char)
    requires xs != []
    ensures SplitOn(Join(xs, [c]), c) == Pieces(xs, c)
  {
    SplitAt(xs, 1);
    assert xs[..1] == [xs[0]];
    if |xs| > 1 {
      SplitOfJoined(xs[1..], c);
      JoinCons(xs[0], xs[1..], c);
      SplitAround(xs[0], Join(xs[1..], [c]), c);
    } else {
      assert Pieces(xs[1..], c) == [];
    }
  }

  lemma {:induction false} JoinedIsEmpty(xs: seq<string>, c: char)
    requires forall x | x in xs :: x != ""
    ensures Join(xs, [c]) == "" <==> xs == []
  {
    if xs != [] {
      assert xs[0] in xs;
    }
  }

  /** Joined lists of non-empty texts are equal exactly when their pieces are. */
  lemma {:induction false} JoinedSameIff(xs: seq<string>, ys: seq<string>, c: char)
    requires (forall x | x in xs :: x != "") && (forall y | y in ys :: y != "")
    ensures Join(xs, [c]) == Join(ys, [c]) <==> Pieces(xs, c) == Pieces(ys, c)
  {
    JoinedIsEmpty(xs, c);
    JoinedIsEmpty(ys, c);
    if xs != [] && ys != [] {
      SplitOfJoined(xs, c);
      SplitOfJoined(ys, c);
      JoinOfSplit(Join(xs, [c]), c);
      JoinOfSplit(Join(ys, [c]), c);
    }
  }

  lemma {:induction false} PlainSplit(s: string, c: char)
    requires c !in s
    ensures SplitOn(s, c) == [s]
  {
    if s != "" {
      PlainSplit(s[1..], c);
      assert [s[0]] + s[1..] == s;
    }
  }

  lemma {:induction false} PlainPieces(xs: seq<string>, c: char)
    requires forall x | x in xs :: c !in x
    ensures Pieces(xs, c) == xs
  {
    if xs != [] {
      PlainSplit(xs[0], c);
      PlainPieces(xs[1..], c);
      SplitAt(xs, 1);
      assert xs[..1] == [xs[0]];
    }
  }

  // ---------------------------------------------------------------- facets

  /** The cleaned values of a facet in canonical order. */
  function Sorted(raw: Option<FacetValue>): seq<string> {
    SortStrings(Cleaned(Values(raw)))
  }

  lemma {:induction false} SortedMembers(raw: Option<FacetValue>, v: string)
    ensures v in Sorted(raw) <==> v in Cleaned(Values(raw))
    ensures multiset(Sorted(raw)) == multiset(Cleaned(Values(raw)))
  {
    SortSorts(Cleaned(Values(raw)));
    assert v in multiset(Sorted(raw)) <==> v in multiset(Cleaned(Values(raw)));
  }

  lemma {:induction false} SortedNotEmpty(raw: Option<FacetValue>)
    ensures forall v | v in Sorted(raw) :: v != ""
  {
    CleanedAreTidy(Values(raw));
    forall v | v in Sorted(raw)
      ensures v != ""
    {
      SortedMembers(raw, v);
    }
  }

  /** MAIN: two facets have the same canonical text exactly when their sorted values have the same
      pieces between commas. */
  lemma {:induction false} FacetTextSameIff(a: Option<FacetValue>, b: Option<FacetValue>)
    ensures FacetText(a) == FacetText(b) <==> Pieces(Sorted(a), ',') == Pieces(Sorted(b), ',')
  {
    SortedNotEmpty(a);
    SortedNotEmpty(b);
    assert "," == [','];
    JoinedSameIff(Sorted(a), Sorted(b), ',');
  }

  /** No cleaned value contains the character. */
  predicate Without(raw: Option<FacetValue>, c: char) {
    forall v | v in Cleaned(Values(raw)) :: c !in v
  }

  lemma {:induction false} SortedWithout(raw: Option<FacetValue>, c: char)
    requires Without(raw, c)
    ensures forall v | v in Sorted(raw) :: c !in v
  {
    forall v | v in Sorted(raw)
      ensures c !in v
    {
      SortedMembers(raw, v);
    }
  }

  /** MAIN: without commas the text determines the values up to their order. */
  lemma {:induction false} FacetTextTellsValues(a: Option<FacetValue>, b: Option<FacetValue>)
    requires Without(a, ',') && Without(b, ',')
    ensures FacetText(a) == FacetText(b) <==> SameFacet(a, b)
  {
    FacetTextSameIff(a, b);
    SortedWithout(a, ',');
    SortedWithout(b, ',');
    PlainPieces(Sorted(a), ',');
    PlainPieces(Sorted(b), ',');
    SortedMembers(a, "");
    SortedMembers(b, "");
    if SameFacet(a, b) {
      SameFacetSameText(a, b);
    }
  }

  // ---------------------------------------------------------------- whole grammars

  /** The normalised text of a canonical grammar. */
  function NormalText(canon: seq<Option<string>>): string
    requires |canon| == 5
  {
    Join(PartsUpTo(canon, 5), ">")
  }

  lemma {:induction false} PartsNotEmpty(canon: seq<Option<string>>, n: nat)
    requires |canon| == 5 && n <= 5
    ensures forall p | p in PartsUpTo(canon, n) :: p != ""
  {
    if n > 0 {
      PartsNotEmpty(canon, n - 1);
    }
  }

  /** MAIN: two grammars normalise to the same text exactly when their parts have the same pieces
      between the separators. */
  lemma {:induction false} NormalTextSameIff(a: seq<Option<string>>, b: seq<Option<string>>)
    requires |a| == |b| == 5
    ensures NormalText(a) == NormalText(b) <==> Pieces(PartsUpTo(a, 5), '>') == Pieces(PartsUpTo(b, 5), '>')
  {
    PartsNotEmpty(a, 5);
    PartsNotEmpty(b, 5);
    assert ">" == ['>'];
    JoinedSameIff(PartsUpTo(a, 5), PartsUpTo(b, 5), '>');
  }

  predicate CanonWithout(canon: seq<Option<string>>, c: char) {
    forall i | 0 <= i < |canon| && canon[i].Some? :: c !in canon[i].value
  }

  lemma {:induction false} PartsWithout(canon: seq<Option<string>>, n: nat)
    requires |canon| == 5 && n <= 5 && CanonWithout(canon, '>')
    ensures forall p | p in PartsUpTo(canon, n) :: '>' !in p
  {
    if n > 0 {
      PartsWithout(canon, n - 1);
    }
  }

  /** The first letter of a part tells the facet, whatever the value contains. */
  lemma {:induction false} PartInitials(canon: seq<Option<string>>, n: nat, k: nat)
    requires |canon| == 5 && n <= k < 5
    ensures forall p | p in PartsUpTo(canon, n) :: p != "" && p[0] != FACET_ORDER[k][0]
  {
    if n > 0 {
      PartInitials(canon, n - 1, k);
      assert FACET_ORDER[n - 1][0] != FACET_ORDER[k][0];
    }
  }

  lemma {:induction false} PartsTell(a: seq<Option<string>>, b: seq<Option<string>>, n: nat)
    requires |a| == |b| == 5 && n <= 5 && PartsUpTo(a, n) == PartsUpTo(b, n)
    ensures a[..n] == b[..n]
  {
    if n > 0 {
      var k := n - 1;
      LastPart(a, k);
      LastPart(b, k);
      if a[k].Some? && b[k].Some? {
        PrefixAndRest(PartsUpTo(a, k), [FACET_ORDER[k] + "=" + a[k].value]);
        PrefixAndRest(PartsUpTo(b, k), [FACET_ORDER[k] + "=" + b[k].value]);
        PrefixAndRest(FACET_ORDER[k] + "=", a[k].value);
        PrefixAndRest(FACET_ORDER[k] + "=", b[k].value);
      } else if a[k].Some? {
        PartMissing(a, b, k);
      } else if b[k].Some? {
        PartMissing(b, a, k);
      }
      PartsTell(a, b, k);
      PrefixPlusOne(a, k);
      PrefixPlusOne(b, k);
    }
  }

  lemma {:induction false} PartMissing(a: seq<Option<string>>, b: seq<Option<string>>, k: nat)
    requires |a| == |b| == 5 && k < 5 && a[k].Some? && b[k].None?
    ensures PartsUpTo(a, k + 1) != PartsUpTo(b, k + 1)
  {
    LastPart(a, k);
    LastPart(b, k);
    PartInitials(b, k, k);
    assert FACET_ORDER[k] + "=" + a[k].value in PartsUpTo(a, k + 1);
  }

  lemma {:induction false} LastPart(canon: seq<Option<string>>, k: nat)
    requires |canon| == 5 && k < 5
    ensures PartsUpTo(canon, k + 1) ==
            if canon[k].Some? then PartsUpTo(canon, k) + [FACET_ORDER[k] + "=" + canon[k].value]
            else PartsUpTo(canon, k)
  {
  }

  /** MAIN: without '>' in them the canonical facets are determined by the normalised text; '=' does
      no harm. */
  lemma {:induction false} NormalTextTellsFacets(a: seq<Option<string>>, b: seq<Option<string>>)
    requires |a| == |b| == 5 && CanonWithout(a, '>') && CanonWithout(b, '>')
    ensures NormalText(a) == NormalText(b) <==> a == b
  {
    NormalTextSameIff(a, b);
    PartsWithout(a, 5);
    PartsWithout(b, 5);
    PlainPieces(PartsUpTo(a, 5), '>');
    PlainPieces(PartsUpTo(b, 5), '>');
    if PartsUpTo(a, 5) == PartsUpTo(b, 5) {
      PartsTell(a, b, 5);
      PrefixPlusOne(a, 4);
      PrefixPlusOne(b, 4);
    }
  }

  lemma {:induction false} JoinWithout(xs: seq<string>, c: char, separator: char)
    requires c != separator && forall x | x in xs :: c !in x
    ensures c !in Join(xs, [separator])
  {
    if |xs| > 1 {
      JoinWithout(xs[1..], c, separator);
    }
  }

  lemma {:induction false} FacetTextWithout(raw: Option<FacetValue>)
    requires Without(raw, '>') && FacetText(raw).Some?
    ensures '>' !in FacetText(raw).value
  {
    SortedWithout(raw, '>');
    assert "," == [','];
    JoinWithout(Sorted(raw), '>', ',');
  }

  /** MAIN: for grammars whose values contain neither ',' nor '>', equal normalised texts mean the
      same cleaned values in every facet. */
  lemma {:induction false} NormalTextTellsValues(g: SemanticGrammar, h: SemanticGrammar)
    requires forall i: nat | i < 5 :: Without(g.At(i), ',') && Without(g.At(i), '>')
    requires forall i: nat | i < 5 :: Without(h.At(i), ',') && Without(h.At(i), '>')
    ensures NormalText(Canon(g)) == NormalText(Canon(h)) <==> forall i: nat | i < 5 :: SameFacet(g.At(i), h.At(i))
  {
    forall i: nat | i < 5
      ensures Canon(g)[i] == FacetText(g.At(i)) && Canon(h)[i] == FacetText(h.At(i))
      ensures Canon(g)[i] == Canon(h)[i] <==> SameFacet(g.At(i), h.At(i))
    {
      CanonAt(g, i);
      CanonAt(h, i);
      FacetTextTellsValues(g.At(i), h.At(i));
    }
    CanonIsWithout(g);
    CanonIsWithout(h);
    NormalTextTellsFacets(Canon(g), Canon(h));
  }

  lemma {:induction false} CanonIsWithout(g: SemanticGrammar)
    requires forall i: nat | i < 5 :: Without(g.At(i), '>')
    ensures CanonWithout(Canon(g), '>')
  {
    forall i: nat | i < 5 && Canon(g)[i].Some?
      ensures '>' !in Canon(g)[i].value
    {
      CanonAt(g, i);
      FacetTextWithout(g.At(i));
    }
  }

  lemma {:induction false} NothingBehind(canon: seq<Option<string>>, k: nat, n: nat)
    requires |canon| == 5 && k <= n <= 5 && forall i | k <= i < n :: canon[i].None?
    ensures PartsUpTo(canon, n) == PartsUpTo(canon, k)
  {
    if k < n {
      NothingBehind(canon, k, n - 1);
      LastPart(canon, n - 1);
    }
  }

  lemma {:induction false} JoinTwo(q: string, r: string, separator: string)
    ensures Join([q, r], separator) == q + separator + r
  {
    assert [q, r][1..] == [r];
  }

  /** With it they are not: a domain can contain what looks like an entity. */
  lemma {:induction false} PartsCollide(a: string, b: string)
    ensures NormalText([Some(a + (">entity=" + b)), None, None, None, None])
         == NormalText([Some(a), Some(b), None, None, None])
  {
    OnePart(a + (">entity=" + b));
    TwoParts(a, b);
    JoinTwo("domain" + "=" + a, "entity" + "=" + b, ">");
    assert "domain" + "=" + (a + (">entity=" + b)) == "domain" + "=" + a + ">" + ("entity" + "=" + b);
  }

  lemma {:induction false} OnePart(a: string)
    ensures PartsUpTo([Some(a), None, None, None, None], 5) == ["domain" + "=" + a]
  {
    NothingBehind([Some(a), None, None, None, None], 1, 5);
    LastPart([Some(a), None, None, None, None], 0);
  }

  lemma {:induction false} TwoParts(a: string, b: string)
    ensures PartsUpTo([Some(a), Some(b), None, None, None], 5) == ["domain" + "=" + a, "entity" + "=" + b]
  {
    NothingBehind([Some(a), Some(b), None, None, None], 2, 5);
    LastPart([Some(a), Some(b), None, None, None], 0);
    LastPart([Some(a), Some(b), None, None, None], 1);
  }
}
