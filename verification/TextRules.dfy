/** The character and text rules of addresses, written out. */
module TextRules {
  import opened AddressBook
  import opened CanonicalTexts
  import opened Digests
  import opened Grammar
  import opened Hex
  import opened Sequences
  import opened SynapticField
  import opened Words
  import opened Wrappers

  const UPPER := "ABCDEFGHIJKLMNOPQRSTUVWXYZ"
  const LOWER := "abcdefghijklmnopqrstuvwxyz"

  /** MAIN: lower-casing maps each capital letter of ASCII to its small one and leaves the rest alone. */
  lemma {:induction false} LowerCharIs(c: char, i: nat)
    ensures i < 26 ==> LowerChar(UPPER[i]) == LOWER[i]
    ensures c !in UPPER ==> LowerChar(c) == c
  {
    if 'A' <= c <= 'Z' {
      assert UPPER[c as int - 'A' as int] == c;
    }
  }

  /** MAIN: the white space of ECMAScript, by code point. */
  lemma {:induction false} SpacesAre(c: char)
    ensures IsSpace(c) <==>
            (c as int) in [0x9, 0xA, 0xB, 0xC, 0xD, 0x20, 0xA0, 0x1680, 0x2000, 0x2001, 0x2002, 0x2003, 0x2004, 0x2005,
                           0x2006, 0x2007, 0x2008, 0x2009, 0x200A, 0x2028, 0x2029, 0x202F, 0x205F, 0x3000, 0xFEFF]
  {
  }

  /** Two texts agree before position `k`, where the first has the smaller character. */
  ghost predicate LessAt(a: string, b: string, k: nat) {
    k < |a| && k < |b| && a[..k] == b[..k] && a[k] < b[k]
  }

  /** MAIN: the order of sorting is lexicographic and increasing. */
  lemma {:induction false} LexLeIs(a: string, b: string)
    ensures LexLe(a, b) <==> a <= b || exists k: nat :: LessAt(a, b, k)
  {
    if a != "" && b != "" {
      LexLeIs(a[1..], b[1..]);
      PrefixByFirst(a, b);
      if k: nat :| LessAt(a, b, k) {
        if k > 0 {
          assert a[0] == a[..k][0] == b[..k][0] == b[0];
          assert a[1..][..k - 1] == a[..k][1..] == b[..k][1..] == b[1..][..k - 1];
          assert LessAt(a[1..], b[1..], k - 1);
        }
      }
      if a[0] < b[0] {
        assert LessAt(a, b, 0);
      }
      if a[0] == b[0] {
        if k: nat :| LessAt(a[1..], b[1..], k) {
          assert a[..k + 1] == [a[0]] + a[1..][..k] == [b[0]] + b[1..][..k] == b[..k + 1];
          assert LessAt(a, b, k + 1);
        }
      }
    }
  }

  lemma {:induction false} PrefixByFirst(a: string, b: string)
    requires a != "" && b != ""
    ensures a <= b <==> a[0] == b[0] && a[1..] <= b[1..]
  {
    ConsPrefixIff(a, b, 1);
    assert a[..1] == [a[0]] && b[..1] == [b[0]];
  }

  // ---------------------------------------------------------------- canonical text

  /** MAIN: a facet's text is the sorted list of its cleaned, non-empty values with commas between them. */
  lemma {:induction false} FacetTextIs(raw: Option<FacetValue>) returns (vs: seq<string>)
    ensures Ordered(vs) && multiset(vs) == multiset(Cleaned(Values(raw)))
    ensures FacetText(raw) == if vs == [] then None else Some(Join(vs, ","))
    ensures raw == None ==> vs == []
  {
    vs := Sorted(raw);
    SortSorts(Cleaned(Values(raw)));
    SortSorts([]);
  }

  /** One facet of the normalised text. */
  function NamedPart(name: string, text: Option<string>): seq<string> {
    if text.None? then [] else [name + "=" + text.value]
  }

  /** MAIN: the normalised text names the facets present in this order. */
  lemma {:induction false} NormalTextIs(g: SemanticGrammar)
    ensures PartsUpTo(Canon(g), 5) ==
            NamedPart("domain", FacetText(g.domain)) + NamedPart("entity", FacetText(g.entity))
            + NamedPart("relation", FacetText(g.relation)) + NamedPart("temporal", FacetText(g.temporal))
            + NamedPart("qualifier", FacetText(g.qualifier))
    ensures NormalText(Canon(g)) == Join(PartsUpTo(Canon(g), 5), ">")
  {
    var canon := Canon(g);
    PartIs(canon, 0, "domain");
    PartIs(canon, 1, "entity");
    PartIs(canon, 2, "relation");
    PartIs(canon, 3, "temporal");
    PartIs(canon, 4, "qualifier");
    Units(NamedPart("domain", FacetText(g.domain)));
  }

  lemma {:induction false} PartIs(canon: seq<Option<string>>, k: nat, name: string)
    requires |canon| == 5 && k < 5 && name == ["domain", "entity", "relation", "temporal", "qualifier"][k]
    ensures PartsUpTo(canon, k + 1) == PartsUpTo(canon, k) + NamedPart(name, canon[k])
  {
    LastPart(canon, k);
  }

  // ---------------------------------------------------------------- hexadecimal

  /** MAIN: two digits for each byte, the high one first. */
  lemma {:induction false} ToHexIs(bytes: Bytes, i: nat)
    requires i < |bytes|
    ensures ToHex(bytes)[2 * i] == "0123456789abcdef"[bytes[i] / 16]
    ensures ToHex(bytes)[2 * i + 1] == "0123456789abcdef"[bytes[i] % 16]
  {
    if i > 0 {
      ToHexIs(bytes[1..], i - 1);
    }
  }

  predicate IsDigit(c: char) {
    '0' <= c <= '9' || 'a' <= c <= 'f' || 'A' <= c <= 'F'
  }

  lemma {:induction false} DigitIs(c: char)
    ensures DigitValue(c).Some? <==> IsDigit(c)
    ensures DigitValue(c).Some? ==> "0123456789abcdef"[DigitValue(c).value] == LowerChar(c)
  {
  }

  lemma {:induction false} HexTextIs(text: string)
    ensures IsHexText(text) <==> forall i | 0 <= i < |text| :: IsDigit(text[i])
  {
    forall i | 0 <= i < |text|
      ensures DigitValue(text[i]).Some? <==> IsDigit(text[i])
    {
      DigitIs(text[i]);
    }
    assert forall i | 0 <= i < |text| :: text[i] in text;
  }

  /** MAIN: exactly the texts with an even number of hexadecimal digits decode, in either case, and the
      text of what they decode to is their own in lower case. */
  lemma {:induction false} FromHexIff(text: string)
    ensures FromHex(text).Some? <==> |text| % 2 == 0 && forall i | 0 <= i < |text| :: IsDigit(text[i])
    ensures FromHex(text).Some? ==> ToHex(FromHex(text).value) == Lower(text)
  {
    HexTextIs(text);
    if |text| % 2 == 0 {
      FromHexOfPairs(text);
      PairsTextIff(text);
    } else {
      FromHexOdd(text);
    }
  }

  lemma {:induction false} FromHexOfPairs(text: string)
    requires |text| % 2 == 0
    ensures FromHex(text) == if IsHexText(text) then Some(ParsePairs(text)) else None
  {
    if text != "" {
      FromHexOfPairs(text[2..]);
      SplitPair(text);
    }
  }

  lemma {:induction false} FromHexOdd(text: string)
    requires |text| % 2 == 1
    ensures FromHex(text) == None
  {
    if |text| > 1 {
      FromHexOdd(text[2..]);
    }
  }

  /** MAIN: bytes are appended as they are, text as what it decodes to. */
  lemma {:induction false} ItemBytesIs(bytes: Bytes, text: string)
    ensures ItemBytes(Raw(bytes)) == Some(bytes)
    ensures ItemBytes(Text(text)).Some? <==> |text| % 2 == 0 && forall i | 0 <= i < |text| :: IsDigit(text[i])
    ensures ItemBytes(Text(text)).Some? ==> ToHex(ItemBytes(Text(text)).value) == Lower(text)
  {
    FromHexIff(text);
  }

  lemma {:induction false} OneDigitText(c: char)
    requires IsDigit(c)
    ensures DigitValue(c).Some? && ByteToHex(DigitValue(c).value) == ['0', LowerChar(c)]
  {
    DigitIs(c);
  }

  lemma {:induction false} NotDigits(c: char)
    requires IsSpace(c) || c == '+' || c == '-'
    ensures DigitValue(c) == None
  {
  }

  /** MAIN: what `parseInt` in base 16 makes of a digit and another character, as a byte. */
  lemma {:induction false} ParseFromDigit(c: char, d: char)
    requires IsDigit(c)
    ensures ByteToHex(ParsePair(c, d)) == if IsDigit(d) then [LowerChar(c), LowerChar(d)] else ['0', LowerChar(c)]
  {
    DigitIs(c);
    DigitIs(d);
    if IsDigit(d) {
      PairTextIff(c, d);
    } else {
      OneDigitText(c);
    }
  }

  /** MAIN: white space and a plus are skipped before a digit... */
  lemma {:induction false} ParseAfterBlank(c: char, d: char)
    requires IsDigit(d) && (IsSpace(c) || c == '+')
    ensures ByteToHex(ParsePair(c, d)) == ['0', LowerChar(d)]
  {
    NotDigits(c);
    OneDigitText(d);
    assert ParsePair(c, d) == DigitValue(d).value;
  }

  /** MAIN: ...and a minus negates it modulo 256. */
  lemma {:induction false} ParseAfterMinus(d: char)
    requires IsDigit(d)
    ensures (ParsePair('-', d) + ParsePair('+', d)) % 256 == 0
  {
    NotDigits('-');
    NotDigits('+');
    DigitIs(d);
  }

  /** MAIN: anything else counts as zero. */
  lemma {:induction false} ParseNothing(c: char, d: char)
    requires !IsDigit(c) && !(IsDigit(d) && (IsSpace(c) || c == '+' || c == '-'))
    ensures ParsePair(c, d) == 0
  {
    DigitIs(c);
    DigitIs(d);
  }
}
