/** Facts about sequences, each proved once in a small context. */
module Sequences {
  predicate NoDuplicates<T(==)>(s: seq<T>) {
    forall i, j | 0 <= i < j < |s| :: s[i] != s[j]
  }

  lemma {:induction false} NoDuplicatesInit<T>(s: seq<T>, x: T)
    requires s != [] && NoDuplicates(s)
    ensures NoDuplicates(s[..|s| - 1]) && s[|s| - 1] !in s[..|s| - 1]
    ensures x in s <==> x in s[..|s| - 1] || x == s[|s| - 1]
  {
  }

  lemma {:induction false} SplitLast<T>(s: seq<T>)
    requires s != []
    ensures s == s[..|s| - 1] + [s[|s| - 1]]
  {
  }

  lemma {:induction false} SplitAt<T>(s: seq<T>, k: nat)
    requires k <= |s|
    ensures s == s[..k] + s[k..]
  {
  }

  lemma {:induction false} PrefixOfPrefix<T>(s: seq<T>, k: nat, m: nat)
    requires m <= k <= |s|
    ensures s[..k][..m] == s[..m]
  {
  }

  lemma {:induction false} PrefixAndRest<T>(a: seq<T>, b: seq<T>)
    ensures (a + b)[..|a|] == a && (a + b)[|a|..] == b
  {
  }

  lemma {:induction false} WholeOfSnoc<T>(s: seq<T>, x: T)
    ensures (s + [x])[..|s| + 1] == s + [x] && (s + [x])[|s|] == x
  {
  }

  lemma {:induction false} SliceOfConcat<T>(s: seq<T>, t: seq<T>, i: nat, j: nat)
    requires i <= j <= |s|
    ensures (s + t)[i..j] == s[i..j]
  {
  }

  lemma {:induction false} RestOfConcat<T>(s: seq<T>, t: seq<T>)
    ensures (s + t)[|s|..|s| + |t|] == t
  {
  }

  lemma {:induction false} DropOfConcat<T>(s: seq<T>, t: seq<T>, k: nat)
    requires k <= |s|
    ensures (s + t)[k..] == s[k..] + t
  {
  }

  lemma {:induction false} Units<T>(s: seq<T>)
    ensures [] + s == s && s + [] == s
  {
  }

  lemma {:induction false} Assoc<T>(a: seq<T>, b: seq<T>, c: seq<T>)
    ensures a + b + c == a + (b + c)
  {
  }

  lemma {:induction false} AppendTwo<T>(s: seq<T>, x: T, y: T)
    ensures s + [x] + [y] == s + [x, y]
  {
  }

  lemma {:induction false} SplitLastTwo<T>(s: seq<T>)
    requires |s| >= 2
    ensures s[..|s| - 1] == s[..|s| - 2] + [s[|s| - 2]]
    ensures s == s[..|s| - 2] + [s[|s| - 2], s[|s| - 1]]
  {
  }

  lemma {:induction false} PrefixPlusOne<T>(s: seq<T>, i: nat)
    requires i < |s|
    ensures s[..i + 1] == s[..i] + [s[i]]
    ensures s[..|s|] == s
  {
  }
}
