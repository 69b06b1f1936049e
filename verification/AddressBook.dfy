/** Addresses as text, and the in-memory book that indexes entries by it. */
module AddressBook {
  import opened Addresses
  import opened Digests
  import opened Grammar
  import opened Hex
  import opened Sequences
  import opened Words
  import opened Wrappers

  // ---------------------------------------------------------------- text form

  /** `parseInt` of two characters in base 16, stored into a byte. What is not a number is stored as
      0, and a sign or leading white space is accepted. */
  function ParsePair(c: char, d: char): Byte {
    match (DigitValue(c), DigitValue(d))
    case (Some(hi), Some(lo)) => 16 * hi + lo
    case (Some(hi), None) => hi
    case (None, Some(lo)) =>
      if IsSpace(c) || c == '+' then lo else if c == '-' then (256 - lo) % 256 else 0
    case (None, None) => 0
  }

  function ParsePairs(text: string): (bytes: Bytes)
    requires |text| % 2 == 0
    ensures |bytes| == |text| / 2
  {
    if text == "" then [] else [ParsePair(text[0], text[1])] + ParsePairs(text[2..])
  }

  /** Anything of 64 characters is accepted. */
  function FromText(text: string): Option<Address> {
    if |text| != 64 then None else Some(ParsePairs(text))
  }

  lemma {:induction false} ParsePairsAt(text: string, i: nat)
    requires |text| % 2 == 0 && 2 * i + 1 < |text|
    ensures ParsePairs(text)[i] == ParsePair(text[2 * i], text[2 * i + 1])
  {
    if i > 0 {
      ParsePairsAt(text[2..], i - 1);
    }
  }

  method FromHexText(text: string) returns (a: Option<Address>)
    ensures a == FromText(text)
  {
    if |text| != 64 {
      return None;
    }
    var bytes := new Byte[32](_ => 0);
    for i := 0 to 32
      invariant forall k | 0 <= k < i :: bytes[k] == ParsePairs(text)[k]
    {
      ParsePairsAt(text, i);
      bytes[i] := ParsePair(text[2 * i], text[2 * i + 1]);
    }
    assert bytes[..] == ParsePairs(text);
    a := Some(bytes[..]);
  }

  lemma {:induction false} ParsePairRoundTrip(b: Byte)
    ensures ParsePair(ByteToHex(b)[0], ByteToHex(b)[1]) == b
  {
    ByteRoundTrip(b);
  }

  lemma {:induction false} ParsePairsRoundTrip(bytes: Bytes)
    ensures ParsePairs(ToHex(bytes)) == bytes
  {
    if bytes != [] {
      var text := ToHex(bytes);
      ParsePairRoundTrip(bytes[0]);
      ParsePairsRoundTrip(bytes[1..]);
      assert text[0] == ByteToHex(bytes[0])[0] && text[1] == ByteToHex(bytes[0])[1] && text[2..] == ToHex(bytes[1..]);
      SplitAt(bytes, 1);
      assert bytes[..1] == [bytes[0]];
    }
  }

  /** MAIN: reading back the text of an address gives the address. */
  lemma {:induction false} AddressRoundTrip(a: Address)
    ensures FromText(ToHex(a)) == Some(a)
  {
    ParsePairsRoundTrip(a);
  }

  predicate IsHexText(text: string) {
    forall c | c in text :: DigitValue(c).Some?
  }

  lemma {:induction false} PairTextIff(c: char, d: char)
    ensures ByteToHex(ParsePair(c, d)) == [LowerChar(c), LowerChar(d)] <==> DigitValue(c).Some? && DigitValue(d).Some?
  {
    var b := ParsePair(c, d);
    DigitRoundTrip(b / 16);
    DigitRoundTrip(b % 16);
    LowerDigit(c);
    LowerDigit(d);
    if DigitValue(c).Some? && DigitValue(d).Some? {
      assert b / 16 == DigitValue(c).value && b % 16 == DigitValue(d).value;
    }
  }

  lemma {:induction false} LowerDigit(c: char)
    ensures DigitValue(LowerChar(c)) == DigitValue(c)
    ensures DigitValue(c).Some? ==> DIGITS[DigitValue(c).value] == LowerChar(c)
  {
  }

  lemma {:induction false} PairsTextIff(text: string)
    requires |text| % 2 == 0
    ensures ToHex(ParsePairs(text)) == Lower(text) <==> IsHexText(text)
  {
    if text != "" {
      var c, d, rest := text[0], text[1], text[2..];
      PairTextIff(c, d);
      PairsTextIff(rest);
      SplitPair(text);
      SamePartsIff(ByteToHex(ParsePair(c, d)), ToHex(ParsePairs(rest)), [LowerChar(c), LowerChar(d)], Lower(rest));
    }
  }

  lemma {:induction false} SplitPair(text: string)
    requires |text| >= 2
    ensures Lower(text) == [LowerChar(text[0]), LowerChar(text[1])] + Lower(text[2..])
    ensures IsHexText(text) <==> DigitValue(text[0]).Some? && DigitValue(text[1]).Some? && IsHexText(text[2..])
  {
    assert text == [text[0], text[1]] + text[2..];
  }

  lemma {:induction false} SamePartsIff<T>(a: seq<T>, b: seq<T>, c: seq<T>, d: seq<T>)
    requires |a| == |c|
    ensures a + b == c + d <==> a == c && b == d
  {
    PrefixAndRest(a, b);
    PrefixAndRest(c, d);
  }

  /** MAIN: writing back what was read gives the same text, in lower case, exactly when the text was
      hexadecimal: the reader does not check that. */
  lemma {:induction false} TextRoundTripIff(text: string)
    requires |text| == 64
    ensures FromText(text).Some?
    ensures ToHex(FromText(text).value) == Lower(text) <==> IsHexText(text)
  {
    PairsTextIff(text);
  }

  // ---------------------------------------------------------------- prefixes of text

  lemma {:induction false} HexPrefixIff(p: Bytes, a: Bytes)
    ensures ToHex(p) <= ToHex(a) <==> p <= a
  {
    if p != [] && a != [] {
      HexPrefixIff(p[1..], a[1..]);
      ByteTextPrefixIff(p[0], ToHex(p[1..]), a[0], ToHex(a[1..]));
      ConsPrefixIff(p, a, 1);
    }
  }

  lemma {:induction false} ByteTextPrefixIff(x: Byte, s: string, y: Byte, t: string)
    ensures ByteToHex(x) + s <= ByteToHex(y) + t <==> x == y && s <= t
  {
    ByteRoundTrip(x);
    ByteRoundTrip(y);
    PrefixAndRest(ByteToHex(x), s);
    PrefixAndRest(ByteToHex(y), t);
    ConsPrefixIff(ByteToHex(x) + s, ByteToHex(y) + t, 2);
  }

  lemma {:induction false} ConsPrefixIff<T>(s: seq<T>, t: seq<T>, k: nat)
    requires k <= |s| && k <= |t|
    ensures s <= t <==> s[..k] == t[..k] && s[k..] <= t[k..]
  {
    SplitAt(s, k);
    SplitAt(t, k);
  }

  // ---------------------------------------------------------------- queries

  datatype Entry<T> = Entry(address: Address, value: T)

  /** The entries that a partial address matches, in order. */
  function Query<T>(es: seq<Entry<T>>, p: PartialAddress): seq<Entry<T>> {
    if es == [] then []
    else
      var e := es[|es| - 1];
      Query(es[..|es| - 1], p) + (if Matches(e.address, p) then [e] else [])
  }

  /** The entries whose text starts with `prefix`, in order. */
  function HexQuery<T>(es: seq<Entry<T>>, prefix: string): seq<Entry<T>> {
    if es == [] then []
    else
      var e := es[|es| - 1];
      HexQuery(es[..|es| - 1], prefix) + (if prefix <= ToHex(e.address) then [e] else [])
  }

  /** What every partial address made by `derivePartial` satisfies. */
  predicate Proper(p: PartialAddress) {
    |p.bytes| == 4 * p.depth && p.hex == ToHex(p.bytes)
  }

  lemma {:induction false} DerivedIsProper(H: TextHash, g: SemanticGrammar)
    ensures Proper(Prefix(H, Canon(g)))
  {
  }

  /** MAIN: both kinds of query return the same entries for a derived partial address. */
  lemma {:induction false} QueriesAgree<T>(es: seq<Entry<T>>, p: PartialAddress)
    requires Proper(p)
    ensures Query(es, p) == HexQuery(es, p.hex)
  {
    if es != [] {
      QueriesAgree(es[..|es| - 1], p);
      HexPrefixIff(p.bytes, es[|es| - 1].address);
    }
  }

  lemma {:induction false} QuerySnoc<T>(es: seq<Entry<T>>, e: Entry<T>, p: PartialAddress)
    ensures Query(es + [e], p) == Query(es, p) + (if Matches(e.address, p) then [e] else [])
  {
    PrefixAndRest(es, [e]);
  }

  /** MAIN: queries answer entry by entry, in order: with the entry exactly when its bytes, or its
      hexadecimal text, start with what is asked for. */
  lemma {:induction false} QueryByEntry<T>(es: seq<Entry<T>>, fs: seq<Entry<T>>, e: Entry<T>, p: PartialAddress,
                                           text: string)
    ensures Query(es + fs, p) == Query(es, p) + Query(fs, p)
    ensures HexQuery(es + fs, text) == HexQuery(es, text) + HexQuery(fs, text)
    ensures Query([e], p) == if p.depth == 0 || p.bytes <= e.address then [e] else []
    ensures HexQuery([e], text) == if text <= ToHex(e.address) then [e] else []
  {
    assert [e][..0] == [];
    if fs == [] {
      Units(es);
      Units(Query(es, p));
      Units(HexQuery(es, text));
    } else {
      var init, last := fs[..|fs| - 1], fs[|fs| - 1];
      QueryByEntry(es, init, e, p, text);
      SplitLast(fs);
      Assoc(es, init, [last]);
      PrefixAndRest(es + init, [last]);
      Assoc(Query(es, p), Query(init, p), if Matches(last.address, p) then [last] else []);
      Assoc(HexQuery(es, text), HexQuery(init, text), if text <= ToHex(last.address) then [last] else []);
    }
  }

  /** MAIN: a deeper query returns what it returns on the result of a shallower one. */
  lemma {:induction false} DeeperQuery<T>(es: seq<Entry<T>>, p: PartialAddress, q: PartialAddress)
    requires Proper(p) && Proper(q) && p.bytes <= q.bytes
    ensures Query(es, q) == Query(Query(es, p), q)
  {
    if es != [] {
      var init, e := es[..|es| - 1], es[|es| - 1];
      DeeperQuery(init, p, q);
      if Matches(e.address, p) {
        QuerySnoc(Query(init, p), e, q);
      } else {
        assert Query(init, p) + [] == Query(init, p);
        assert Query(init, q) + [] == Query(init, q);
      }
    }
  }

  // ---------------------------------------------------------------- the book

  /** The entries of a map whose keys were set in this order. */
  function Listing<T>(keys: seq<string>, entries: map<string, Entry<T>>): (es: seq<Entry<T>>)
    requires forall k | k in keys :: k in entries
    ensures |es| == |keys| && forall i | 0 <= i < |keys| :: es[i] == entries[keys[i]]
  {
    seq(|keys|, i requires 0 <= i < |keys| => entries[keys[i]])
  }

  function Without(keys: seq<string>, key: string): (r: seq<string>)
    ensures forall k :: k in r <==> k in keys && k != key
    ensures NoDuplicates(keys) ==> NoDuplicates(r)
  {
    if keys == [] then []
    else
      var init, last := keys[..|keys| - 1], keys[|keys| - 1];
      assert keys == init + [last];
      assert NoDuplicates(keys) ==> last !in init;
      if last == key then Without(init, key) else Without(init, key) + [last]
  }

  /** MAIN: removing a key leaves the others in their order. */
  lemma {:induction false} WithoutKeepsOrder(front: seq<string>, key: string, back: seq<string>)
    requires key !in front && key !in back
    ensures Without(front + ([key] + back), key) == front + back
    ensures Without(front, key) == front
  {
    if back == [] {
      Units([key]);
      Units(front);
      PrefixAndRest(front, [key]);
      WithoutNothing(front, key);
    } else {
      var init, last := back[..|back| - 1], back[|back| - 1];
      SplitLast(back);
      WithoutKeepsOrder(front, key, init);
      Assoc([key], init, [last]);
      Assoc(front, [key] + init, [last]);
      PrefixAndRest(front + ([key] + init), [last]);
      Assoc(front, init, [last]);
    }
  }

  lemma {:induction false} WithoutNothing(keys: seq<string>, key: string)
    requires key !in keys
    ensures Without(keys, key) == keys
  {
    if keys != [] {
      WithoutNothing(keys[..|keys| - 1], key);
      SplitLast(keys);
    }
  }

  class Book<T> {
    var entries: map<string, Entry<T>>

    /** The keys in the order in which a Map iterates over them: that of their first insertion. */
    var keys: seq<string>

    ghost predicate Valid()
      reads this
    {
      && NoDuplicates(keys)
      && (forall k :: k in keys <==> k in entries)
      && (forall k | k in entries :: k == ToHex(entries[k].address))
    }

    ghost function Entries(): seq<Entry<T>>
      requires Valid()
      reads this
    {
      Listing(keys, entries)
    }

    constructor ()
      ensures Valid() && keys == [] && entries == map[]
    {
      keys, entries := [], map[];
    }

    method Put(address: Address, value: T)
      requires Valid()
      modifies this
      ensures Valid()
      ensures entries == old(entries)[ToHex(address) := Entry(address, value)]
      ensures keys == if ToHex(address) in old(entries) then old(keys) else old(keys) + [ToHex(address)]
    {
      var hex := ToHex(address);
      if hex !in entries {
        keys := keys + [hex];
      }
      entries := entries[hex := Entry(address, value)];
    }

    method Delete(address: Address) returns (removed: bool)
      requires Valid()
      modifies this
      ensures Valid()
      ensures removed == (ToHex(address) in old(entries))
      ensures entries == old(entries) - {ToHex(address)} && keys == Without(old(keys), ToHex(address))
    {
      var hex := ToHex(address);
      removed := hex in entries;
      entries := entries - {hex};
      keys := Without(keys, hex);
    }

    /** A lookup finds the entry of exactly this address. */
    method Get(address: Address) returns (value: Option<T>)
      requires Valid()
      ensures value.Some? <==> exists k :: k in entries && entries[k].address == address
      ensures value.Some? ==> exists k :: k in entries && entries[k] == Entry(address, value.value)
    {
      var hex := ToHex(address);
      forall k | k in entries && entries[k].address == address
        ensures k == hex
      {
      }
      if hex in entries {
        HexInjective(entries[hex].address, address);
        value := Some(entries[hex].value);
      } else {
        value := None;
      }
    }

    method QueryPartial(p: PartialAddress) returns (results: seq<Entry<T>>)
      requires Valid()
      ensures results == Query(Entries(), p)
      ensures Proper(p) ==> results == HexQuery(Entries(), p.hex)
    {
      results := [];
      ghost var es := Entries();
      for i := 0 to |keys|
        invariant results == Query(es[..i], p)
      {
        var entry := entries[keys[i]];
        var matches := PrefixMatch(entry.address, p);
        if matches {
          results := results + [entry];
        }
        assert es[..i + 1][..i] == es[..i];
      }
      assert es[..|keys|] == es;
      if Proper(p) {
        QueriesAgree(es, p);
      }
    }

    method QueryByHexPrefix(prefix: string) returns (results: seq<Entry<T>>)
      requires Valid()
      ensures results == HexQuery(Entries(), prefix)
    {
      results := [];
      ghost var es := Entries();
      for i := 0 to |keys|
        invariant results == HexQuery(es[..i], prefix)
      {
        if prefix <= keys[i] {
          results := results + [entries[keys[i]]];
        }
        assert es[..i + 1][..i] == es[..i];
      }
      assert es[..|keys|] == es;
    }
  }
}
