/** Facet grammars and their canonical form. */
module Grammar {
  import opened Sequences
  import opened Words
  import opened Wrappers

  datatype FacetValue = One(value: string) | Many(values: seq<string>)

  /** The five facets in canonical order; None stands for undefined and null. */
  datatype SemanticGrammar = SemanticGrammar(
    domain: Option<FacetValue>,
    entity: Option<FacetValue>,
    relation: Option<FacetValue>,
    temporal: Option<FacetValue>,
    qualifier: Option<FacetValue>)
  {
    function At(i: nat): Option<FacetValue>
      requires i < 5
    {
      match i
      case 0 => domain
      case 1 => entity
      case 2 => relation
      case 3 => temporal
      case _ => qualifier
    }
  }

  const FACET_ORDER: seq<string> := ["domain", "entity", "relation", "temporal", "qualifier"]

  // ---------------------------------------------------------------- sorting

  /** Lexicographic order of code units, as `sort` without a comparator uses it. */
  predicate LexLe(a: string, b: string) {
    a == "" || (b != "" && (a[0] < b[0] || (a[0] == b[0] && LexLe(a[1..], b[1..]))))
  }

  lemma {:induction false} LexTotal(a: string, b: string)
    ensures LexLe(a, b) || LexLe(b, a)
  {
    if a != "" && b != "" && a[0] == b[0] {
      LexTotal(a[1..], b[1..]);
    }
  }

  lemma {:induction false} LexAntisymmetric(a: string, b: string)
    requires LexLe(a, b) && LexLe(b, a)
    ensures a == b
  {
    if a != "" && b != "" {
      LexAntisymmetric(a[1..], b[1..]);
      assert a == [a[0]] + a[1..] && b == [b[0]] + b[1..];
    }
  }

  lemma {:induction false} LexTransitive(a: string, b: string, c: string)
    requires LexLe(a, b) && LexLe(b, c)
    ensures LexLe(a, c)
  {
    if a != "" && b != "" && c != "" && a[0] == b[0] == c[0] {
      LexTransitive(a[1..], b[1..], c[1..]);
    }
  }

  predicate Ordered(ss: seq<string>) {
    forall i, j | 0 <= i < j < |ss| :: LexLe(ss[i], ss[j])
  }

  function InsertString(ss: seq<string>, x: string): seq<string> {
    if ss == [] || LexLe(x, ss[0]) then [x] + ss else [ss[0]] + InsertString(ss[1..], x)
  }

  function SortStrings(ss: seq<string>): seq<string> {
    if ss == [] then [] else InsertString(SortStrings(ss[1..]), ss[0])
  }

  lemma {:induction false} InsertAdds(ss: seq<string>, x: string)
    ensures multiset(InsertString(ss, x)) == multiset(ss) + multiset{x}
  {
    if ss != [] && !LexLe(x, ss[0]) {
      InsertAdds(ss[1..], x);
      SplitAt(ss, 1);
      assert ss[..1] == [ss[0]];
    }
  }

  lemma {:induction false} ConsKeepsOrder(x: string, ss: seq<string>)
    requires Ordered(ss) && forall y | y in ss :: LexLe(x, y)
    ensures Ordered([x] + ss)
  {
  }

  lemma {:induction false} InsertKeepsOrder(ss: seq<string>, x: string)
    requires Ordered(ss)
    ensures Ordered(InsertString(ss, x))
  {
    if ss != [] {
      if LexLe(x, ss[0]) {
        forall y | y in ss
          ensures LexLe(x, y)
        {
          var j :| 0 <= j < |ss| && ss[j] == y;
          if j > 0 {
            LexTransitive(x, ss[0], y);
          }
        }
        ConsKeepsOrder(x, ss);
      } else {
        InsertKeepsOrder(ss[1..], x);
        InsertAdds(ss[1..], x);
        LexTotal(x, ss[0]);
        forall y | y in InsertString(ss[1..], x)
          ensures LexLe(ss[0], y)
        {
          assert y in multiset(InsertString(ss[1..], x));
          assert y in ss[1..] || y == x;
        }
        ConsKeepsOrder(ss[0], InsertString(ss[1..], x));
      }
    }
  }

  lemma {:induction false} SortSorts(ss: seq<string>)
    ensures Ordered(SortStrings(ss)) && multiset(SortStrings(ss)) == multiset(ss)
  {
    if ss != [] {
      SortSorts(ss[1..]);
      InsertKeepsOrder(SortStrings(ss[1..]), ss[0]);
      InsertAdds(SortStrings(ss[1..]), ss[0]);
      SplitAt(ss, 1);
      assert ss[..1] == [ss[0]];
    }
  }

  /** An ordered sequence is determined by its elements. */
  lemma {:induction false} OrderedUnique(a: seq<string>, b: seq<string>)
    requires Ordered(a) && Ordered(b) && multiset(a) == multiset(b)
    ensures a == b
  {
    if a == [] || b == [] {
      assert |multiset(a)| == |a| && |multiset(b)| == |b|;
    } else {
      FirstIsLeast(a, b);
      FirstIsLeast(b, a);
      LexAntisymmetric(a[0], b[0]);
      TailOfOrdered(a);
      TailOfOrdered(b);
      OrderedUnique(a[1..], b[1..]);
    }
  }

  lemma {:induction false} TailOfOrdered(ss: seq<string>)
    requires ss != [] && Ordered(ss)
    ensures ss == [ss[0]] + ss[1..]
    ensures Ordered(ss[1..]) && multiset(ss[1..]) == multiset(ss) - multiset{ss[0]}
  {
    SplitAt(ss, 1);
    assert ss[..1] == [ss[0]];
  }

  lemma {:induction false} FirstIsLeast(a: seq<string>, b: seq<string>)
    requires Ordered(a) && a != [] && b != [] && multiset(a) == multiset(b)
    ensures LexLe(a[0], b[0])
  {
    assert b[0] in multiset(b);
    assert b[0] in a;
    var i :| 0 <= i < |a| && a[i] == b[0];
    LexTotal(a[0], a[0]);
  }

  // ---------------------------------------------------------------- canonical facets

  function Values(raw: Option<FacetValue>): seq<string> {
    match raw
    case None => []
    case Some(One(v)) => [v]
    case Some(Many(vs)) => vs
  }

  /** The cleaned values that are not empty. */
  function Cleaned(vs: seq<string>): seq<string> {
    if vs == [] then []
    else (if Clean(vs[0]) == "" then [] else [Clean(vs[0])]) + Cleaned(vs[1..])
  }

  /** The canonical text of a facet; None when nothing is left of it. */
  function FacetText(raw: Option<FacetValue>): Option<string> {
    var values := SortStrings(Cleaned(Values(raw)));
    if values == [] then None else Some(Join(values, ","))
  }

  /** All that normalization and derivation look at. */
  function Canon(g: SemanticGrammar): (canon: seq<Option<string>>)
    ensures |canon| == 5
  {
    [FacetText(g.domain), FacetText(g.entity), FacetText(g.relation), FacetText(g.temporal), FacetText(g.qualifier)]
  }

  lemma {:induction false} CanonAt(g: SemanticGrammar, i: nat)
    requires i < 5
    ensures Canon(g)[i] == FacetText(g.At(i))
  {
  }

  /** The same cleaned values in any order. */
  ghost predicate SameFacet(a: Option<FacetValue>, b: Option<FacetValue>) {
    multiset(Cleaned(Values(a))) == multiset(Cleaned(Values(b)))
  }

  lemma {:induction false} SameFacetSameText(a: Option<FacetValue>, b: Option<FacetValue>)
    requires SameFacet(a, b)
    ensures FacetText(a) == FacetText(b)
  {
    SortSorts(Cleaned(Values(a)));
    SortSorts(Cleaned(Values(b)));
    OrderedUnique(SortStrings(Cleaned(Values(a))), SortStrings(Cleaned(Values(b))));
  }

  /** MAIN: the canonical form depends only on the multisets of cleaned values, so neither on their
      order nor, by `CleanSameIff`, on case and white space. */
  lemma {:induction false} CanonByValues(g: SemanticGrammar, h: SemanticGrammar)
    requires forall i: nat | i < 5 :: SameFacet(g.At(i), h.At(i))
    ensures Canon(g) == Canon(h)
  {
    forall i: nat | i < 5
      ensures Canon(g)[i] == Canon(h)[i]
    {
      CanonAt(g, i);
      CanonAt(h, i);
      SameFacetSameText(g.At(i), h.At(i));
    }
  }

  lemma {:induction false} CleanedAreTidy(vs: seq<string>)
    ensures forall v | v in Cleaned(vs) :: Tidy(v) && v != ""
  {
    if vs != [] {
      CleanIsTidy(vs[0]);
      CleanedAreTidy(vs[1..]);
    }
  }

  lemma {:induction false} CleanedTidy(vs: seq<string>)
    requires forall v | v in vs :: Tidy(v) && v != ""
    ensures Cleaned(vs) == vs
  {
    if vs != [] {
      TidyStays(vs[0]);
      CleanedTidy(vs[1..]);
      SplitAt(vs, 1);
      assert vs[..1] == [vs[0]];
    }
  }

  lemma {:induction false} TidyFacet(raw: Option<FacetValue>)
    requires Values(raw) != [] && Ordered(Values(raw)) && forall v | v in Values(raw) :: Tidy(v) && v != ""
    ensures FacetText(raw) == Some(Join(Values(raw), ","))
  {
    CleanedTidy(Values(raw));
    SortSorts(Values(raw));
    OrderedUnique(SortStrings(Values(raw)), Values(raw));
  }

  lemma {:induction false} CommaIsTidy()
    ensures Tidy("x" + "," + "x")
  {
  }

  /** MAIN: replacing a facet by its own canonical text changes nothing. */
  lemma {:induction false} FacetTextIdempotent(raw: Option<FacetValue>)
    requires FacetText(raw).Some?
    ensures FacetText(Some(One(FacetText(raw).value))) == FacetText(raw)
  {
    var values := SortStrings(Cleaned(Values(raw)));
    SortSorts(Cleaned(Values(raw)));
    CleanedAreTidy(Values(raw));
    assert forall v | v in values :: v in multiset(values);
    CommaIsTidy();
    JoinTidy(values, ",");
    TidyFacet(Some(One(Join(values, ","))));
  }

  /** The separator is not escaped: a comma inside one value looks like two values. */
  lemma {:induction false} CommaCollides(a: string, b: string)
    requires Tidy(a) && Tidy(b) && a != "" && b != "" && LexLe(a, b)
    ensures FacetText(Some(One(a + "," + b))) == FacetText(Some(Many([a, b])))
  {
    CommaIsTidy();
    TidyConcat(a, ",", b);
    TidyFacet(Some(One(a + "," + b)));
    TidyFacet(Some(Many([a, b])));
    assert [a, b][1..] == [b];
  }

  // ---------------------------------------------------------------- normalize

  function PartsUpTo(canon: seq<Option<string>>, n: nat): seq<string>
    requires |canon| == 5 && n <= 5
  {
    if n == 0 then []
    else PartsUpTo(canon, n - 1) +
         (if canon[n - 1].Some? then [FACET_ORDER[n - 1] + "=" + canon[n - 1].value] else [])
  }

  method Normalize(g: SemanticGrammar) returns (text: string, depth: nat)
    ensures text == Join(PartsUpTo(Canon(g), 5), ">") && depth == |PartsUpTo(Canon(g), 5)|
  {
    var parts: seq<string> := [];
    for i := 0 to 5
      invariant parts == PartsUpTo(Canon(g), i)
    {
      CanonAt(g, i);
      var raw := g.At(i);
      if raw.Some? {
        var values := SortStrings(Cleaned(Values(raw)));
        if |values| > 0 {
          parts := parts + [FACET_ORDER[i] + "=" + Join(values, ",")];
        }
      }
    }
    text, depth := Join(parts, ">"), |parts|;
  }

  // ---------------------------------------------------------------- three notions of depth

  /** How many facets are present. */
  function Count(canon: seq<Option<string>>): nat {
    if canon == [] then 0 else Count(canon[..|canon| - 1]) + (if canon[|canon| - 1].Some? then 1 else 0)
  }

  /** How many facets are present before the first gap. */
  function Lead(canon: seq<Option<string>>): (k: nat)
    ensures k <= |canon|
    ensures forall i | 0 <= i < k :: canon[i].Some?
    ensures k < |canon| ==> canon[k].None?
  {
    if canon == [] || canon[0].None? then 0 else 1 + Lead(canon[1..])
  }

  /** One more than the position of the last facet present. */
  function Reach(canon: seq<Option<string>>): (k: nat)
    ensures k <= |canon|
    ensures k > 0 ==> canon[k - 1].Some?
    ensures forall i | k <= i < |canon| :: canon[i].None?
  {
    if canon == [] then 0
    else if canon[|canon| - 1].Some? then |canon|
    else Reach(canon[..|canon| - 1])
  }

  predicate NoGap(canon: seq<Option<string>>) {
    forall i, j | 0 <= i < j < |canon| :: canon[j].Some? ==> canon[i].Some?
  }

  lemma {:induction false} CountBetween(canon: seq<Option<string>>)
    ensures Lead(canon) <= Count(canon) <= Reach(canon)
    ensures Lead(canon) == Reach(canon) <==> Count(canon) == Reach(canon)
  {
    if canon != [] {
      var init := canon[..|canon| - 1];
      CountBetween(init);
      CountAtMost(init);
      assert forall i | 0 <= i < |init| :: init[i] == canon[i];
      assert Lead(canon) == Lead(init) || (Lead(init) == |init| && Lead(canon) == |canon|);
    }
  }

  lemma {:induction false} CountAtMost(canon: seq<Option<string>>)
    ensures Count(canon) <= |canon|
    ensures Count(canon) == |canon| ==> Lead(canon) == |canon|
  {
    if canon != [] {
      var init := canon[..|canon| - 1];
      CountAtMost(init);
      assert forall i | 0 <= i < |init| :: init[i] == canon[i];
    }
  }

  /** MAIN: the depth of a partial address, the depth that normalization reports and the depth stored
      in a full address come in this order, and agree exactly for grammars without a gap. */
  lemma {:induction false} DepthsAgreeIff(canon: seq<Option<string>>)
    ensures Lead(canon) <= Count(canon) <= Reach(canon)
    ensures Lead(canon) == Reach(canon) <==> NoGap(canon)
    ensures Count(canon) == Reach(canon) <==> NoGap(canon)
  {
    CountBetween(canon);
    if Lead(canon) < Reach(canon) {
      assert canon[Lead(canon)].None? && canon[Reach(canon) - 1].Some?;
    }
  }

  lemma {:induction false} NormalizedDepth(canon: seq<Option<string>>, n: nat)
    requires |canon| == 5 && n <= 5
    ensures |PartsUpTo(canon, n)| == Count(canon[..n])
  {
    if n > 0 {
      NormalizedDepth(canon, n - 1);
      assert canon[..n][..n - 1] == canon[..n - 1];
    }
  }
}
