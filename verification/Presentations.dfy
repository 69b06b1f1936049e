/** The canonical form does not depend on how the values of a grammar are written down. */
module Presentations {
  import opened Grammar
  import opened Sequences
  import opened Words
  import opened Wrappers

  /** The lower-cased words of each value that has any. */
  function WordLists(vs: seq<string>): seq<seq<string>> {
    if vs == [] then [] else WordList(vs[0]) + WordLists(vs[1..])
  }

  function WordList(v: string): seq<seq<string>> {
    if Split(Lower(v)) == [] then [] else [Split(Lower(v))]
  }

  predicate AreWords(ws: seq<string>) {
    ws != [] && forall w | w in ws :: IsWord(w)
  }

  lemma {:induction false} JoinedWords(ws: seq<string>)
    requires AreWords(ws)
    ensures Join(ws, " ") != ""
  {
    assert ws[0] in ws;
  }

  lemma {:induction false} CleanedWords(v: string)
    ensures Clean(v) == "" <==> Split(Lower(v)) == []
    ensures Split(Clean(v)) == Split(Lower(v))
    ensures Split(Lower(v)) != [] ==> AreWords(Split(Lower(v)))
  {
    CleanIsWords(v);
    SplitGivesWords(Lower(v));
    SplitOfJoin(Split(Lower(v)));
    if Split(Lower(v)) != [] {
      JoinedWords(Split(Lower(v)));
    }
  }

  /** A list of words stands among the word lists as often as its text among the cleaned values. */
  lemma {:induction false} WordCount(vs: seq<string>, ws: seq<string>)
    requires AreWords(ws)
    ensures multiset(WordLists(vs))[ws] == multiset(Cleaned(vs))[Join(ws, " ")]
  {
    if vs != [] {
      WordCount(vs[1..], ws);
      CleanIsWords(vs[0]);
      CleanedWords(vs[0]);
      SplitOfJoin(ws);
      JoinedWords(ws);
    }
  }

  lemma {:induction false} WordListsAreWords(vs: seq<string>)
    ensures forall ws | ws in WordLists(vs) :: AreWords(ws)
  {
    if vs != [] {
      WordListsAreWords(vs[1..]);
      CleanedWords(vs[0]);
    }
  }

  lemma {:induction false} CleanedAreJoined(vs: seq<string>)
    ensures forall c | c in Cleaned(vs) :: AreWords(Split(c)) && Join(Split(c), " ") == c
  {
    if vs != [] {
      CleanedAreJoined(vs[1..]);
      CleanIsWords(vs[0]);
      CleanedWords(vs[0]);
    }
  }

  /** MAIN: two facets have the same cleaned values exactly when they have the same lower-cased words,
      value by value in any order. */
  lemma {:induction false} SameFacetIff(a: Option<FacetValue>, b: Option<FacetValue>)
    ensures SameFacet(a, b) <==> multiset(WordLists(Values(a))) == multiset(WordLists(Values(b)))
  {
    if SameFacet(a, b) {
      SameCleanedSameWords(Values(a), Values(b));
    }
    if multiset(WordLists(Values(a))) == multiset(WordLists(Values(b))) {
      SameWordsSameCleaned(Values(a), Values(b));
    }
  }

  lemma {:induction false} SameCleanedSameWords(vs: seq<string>, us: seq<string>)
    requires multiset(Cleaned(vs)) == multiset(Cleaned(us))
    ensures multiset(WordLists(vs)) == multiset(WordLists(us))
  {
    forall ws
      ensures multiset(WordLists(vs))[ws] == multiset(WordLists(us))[ws]
    {
      WordCountAny(vs, ws);
      WordCountAny(us, ws);
    }
  }

  lemma {:induction false} WordCountAny(vs: seq<string>, ws: seq<string>)
    ensures multiset(WordLists(vs))[ws] == if AreWords(ws) then multiset(Cleaned(vs))[Join(ws, " ")] else 0
  {
    WordListsAreWords(vs);
    if AreWords(ws) {
      WordCount(vs, ws);
    }
  }

  lemma {:induction false} CleanedCountAny(vs: seq<string>, c: string)
    ensures multiset(Cleaned(vs))[c] ==
            if AreWords(Split(c)) && Join(Split(c), " ") == c then multiset(WordLists(vs))[Split(c)] else 0
  {
    CleanedAreJoined(vs);
    if AreWords(Split(c)) && Join(Split(c), " ") == c {
      WordCount(vs, Split(c));
    }
  }

  lemma {:induction false} SameWordsSameCleaned(vs: seq<string>, us: seq<string>)
    requires multiset(WordLists(vs)) == multiset(WordLists(us))
    ensures multiset(Cleaned(vs)) == multiset(Cleaned(us))
  {
    forall c
      ensures multiset(Cleaned(vs))[c] == multiset(Cleaned(us))[c]
    {
      CleanedCountAny(vs, c);
      CleanedCountAny(us, c);
    }
  }

  // ---------------------------------------------------------------- raw values

  /** `us` is `vs` in another order, with case and white space changed value by value. */
  ghost predicate Rewritten(vs: seq<string>, us: seq<string>) {
    exists ps: seq<string> ::
      && multiset(ps) == multiset(vs) && |ps| == |us|
      && forall i | 0 <= i < |us| :: Split(Lower(ps[i])) == Split(Lower(us[i]))
  }

  function RemoveAt(us: seq<string>, j: nat): (r: seq<string>)
    requires j < |us|
    ensures multiset(r) == multiset(us) - multiset{us[j]}
  {
    assert us == us[..j] + ([us[j]] + us[j + 1..]);
    us[..j] + us[j + 1..]
  }

  lemma {:induction false} RemoveLater(us: seq<string>, j: nat)
    requires 0 < j < |us|
    ensures RemoveAt(us, j) == [us[0]] + RemoveAt(us[1..], j - 1)
  {
  }

  lemma {:induction false} WordListsRemove(us: seq<string>, j: nat)
    requires j < |us|
    ensures multiset(WordLists(us)) == multiset(WordList(us[j])) + multiset(WordLists(RemoveAt(us, j)))
  {
    if j == 0 {
      assert RemoveAt(us, 0) == us[1..];
    } else {
      RemoveLater(us, j);
      WordListsRemove(us[1..], j - 1);
      PrefixAndRest([us[0]], RemoveAt(us[1..], j - 1));
    }
  }

  lemma {:induction false} WordListsPermuted(vs: seq<string>, us: seq<string>)
    requires multiset(vs) == multiset(us)
    ensures multiset(WordLists(vs)) == multiset(WordLists(us))
  {
    if vs == [] {
      assert |multiset(us)| == 0;
    } else {
      assert vs[0] in multiset(us);
      var j :| 0 <= j < |us| && us[j] == vs[0];
      assert multiset(RemoveAt(vs, 0)) == multiset(RemoveAt(us, j));
      assert RemoveAt(vs, 0) == vs[1..];
      WordListsPermuted(vs[1..], RemoveAt(us, j));
      WordListsRemove(us, j);
    }
  }

  lemma {:induction false} WordListsPointwise(ps: seq<string>, us: seq<string>)
    requires |ps| == |us| && forall i | 0 <= i < |us| :: Split(Lower(ps[i])) == Split(Lower(us[i]))
    ensures WordLists(ps) == WordLists(us)
  {
    if us != [] {
      WordListsPointwise(ps[1..], us[1..]);
    }
  }

  /** MAIN: permuting the values of facets and changing their case and white space leaves the
      canonical form alone, and with it everything that is computed from it: the normalised text, the
      full and the partial address. */
  lemma {:induction false} CanonIgnoresPresentation(g: SemanticGrammar, h: SemanticGrammar)
    requires forall i: nat | i < 5 :: Rewritten(Values(g.At(i)), Values(h.At(i)))
    ensures Canon(g) == Canon(h)
  {
    forall i: nat | i < 5
      ensures SameFacet(g.At(i), h.At(i))
    {
      RewrittenSameFacet(g.At(i), h.At(i));
    }
    CanonByValues(g, h);
  }

  lemma {:induction false} RewrittenSameFacet(a: Option<FacetValue>, b: Option<FacetValue>)
    requires Rewritten(Values(a), Values(b))
    ensures SameFacet(a, b)
  {
    var ps: seq<string> :| && multiset(ps) == multiset(Values(a)) && |ps| == |Values(b)|
                           && forall i | 0 <= i < |ps| :: Split(Lower(ps[i])) == Split(Lower(Values(b)[i]));
    WordListsPermuted(Values(a), ps);
    WordListsPointwise(ps, Values(b));
    SameFacetIff(a, b);
  }

  /** Facets replaced by their own canonical text. */
  function Canonical(g: SemanticGrammar): SemanticGrammar {
    SemanticGrammar(AsOne(FacetText(g.domain)), AsOne(FacetText(g.entity)), AsOne(FacetText(g.relation)),
                    AsOne(FacetText(g.temporal)), AsOne(FacetText(g.qualifier)))
  }

  function AsOne(text: Option<string>): Option<FacetValue> {
    if text.None? then None else Some(One(text.value))
  }

  lemma {:induction false} AsOneText(raw: Option<FacetValue>)
    ensures FacetText(AsOne(FacetText(raw))) == FacetText(raw)
  {
    if FacetText(raw).Some? {
      FacetTextIdempotent(raw);
    }
  }

  /** MAIN: so does replacing every facet by its own canonical text. */
  lemma {:induction false} CanonIdempotent(g: SemanticGrammar)
    ensures Canon(Canonical(g)) == Canon(g)
  {
    AsOneText(g.domain);
    AsOneText(g.entity);
    AsOneText(g.relation);
    AsOneText(g.temporal);
    AsOneText(g.qualifier);
  }
}
