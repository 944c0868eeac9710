/** The tables behind the text forms, character by character, and examples. */
module Alphabets {
  import opened Prelude
  import opened Encoding
  import KeyText
  import Keys

  /** The alphabet of RFC 4648 section 4 in three parts, and the digits of section 8
      in lower case. */
  const UPPER: string := "ABCDEFGHIJKLMNOPQRSTUVWXYZ"
  const LOWER: string := "abcdefghijklmnopqrstuvwxyz"
  const REST: string := "0123456789+/"
  const DIGITS: string := "0123456789abcdef"

  function AlphabetAt(v: nat): char
    requires v < 64
  {
    if v < 26 then UPPER[v] else if v < 52 then LOWER[v - 26] else REST[v - 52]
  }

  lemma UpperPlace(v: nat)
    requires v < 26
    ensures UPPER[v] as int == 65 + v && LOWER[v] as int == 97 + v
  {
  }

  lemma SymbolPlace(v: nat)
    requires v < 64
    ensures Symbol(v) as int == AlphabetAt(v) as int
  {
    if v < 26 {
      UpperPlace(v);
    } else if v < 52 {
      UpperPlace(v - 26);
    }
  }

  /** Every character has its place in the table, and nothing else has one. */
  lemma AlphabetPlaces(c: byte, v: nat)
    requires v < 64
    ensures Symbol(v) as int == AlphabetAt(v) as int && PAD as int == '=' as int
    ensures Lookup(c) == v <==> c as int == AlphabetAt(v) as int
  {
    SymbolPlace(v);
    LookupSymbol(v);
    if Lookup(c) != -1 {
      SymbolLookup(c);
    }
  }

  lemma NoPlace(c: byte)
    ensures Lookup(c) == -1 <==> forall w :: 0 <= w < 64 ==> c as int != AlphabetAt(w) as int
  {
    if Lookup(c) == -1 {
      forall w | 0 <= w < 64 ensures c as int != AlphabetAt(w) as int {
        AlphabetPlaces(c, w);
      }
    } else {
      AlphabetPlaces(c, Lookup(c));
      assert c as int == AlphabetAt(Lookup(c)) as int;
    }
  }

  /** A digit of either case has its place, and nothing else has one. */
  lemma DigitPlaces(c: byte, v: nat)
    requires v < 16
    ensures HexDigit(v) as int == DIGITS[v] as int
    ensures HexValue(c) == v <==> c as int == DIGITS[v] as int || (v >= 10 && c as int + 32 == DIGITS[v] as int)
    ensures HexValue(c) == -1 <==>
            forall w :: 0 <= w < 16 ==> c as int != DIGITS[w] as int && (w >= 10 ==> c as int + 32 != DIGITS[w] as int)
  {
    if HexValue(c) != -1 {
      var w := HexValue(c);
      assert c as int == DIGITS[w] as int || (w >= 10 && c as int + 32 == DIGITS[w] as int);
    }
  }

  /** Spaces, tabs, carriage returns and line feeds are left out, and nothing else. */
  lemma StripsWhitespace(s: Text, c: byte)
    ensures Strip(s + [c]) == if c == 32 || c == 9 || c == 13 || c == 10 then Strip(s) else Strip(s) + [c]
  {
    assert (s + [c])[..|s|] == s;
  }

  /** Examples of RFC 4648 section 10: "f", "fo", "foo" and "foob" are "Zg==", "Zm8=",
      "Zm9v" and "Zm9vYg==", and "fo" is 66 6f. */
  lemma PaddedExamples()
    ensures Base64([]) == [] && Base64([102]) == [90, 103, 61, 61] && Hex([102, 111]) == [54, 54, 54, 102]
  {
  }

  lemma PaddedExample()
    ensures Base64([102, 111]) == [90, 109, 56, 61]
  {
  }

  lemma Examples()
    ensures Base64([102, 111, 111]) == [90, 109, 57, 118]
    ensures Base64([102, 111, 111, 98]) == [90, 109, 57, 118, 89, 103, 61, 61]
  {
    FirstGroup([102, 111, 111]);
    FirstGroup([102, 111, 111, 98]);
    assert Base64At([102, 111, 111, 98], 4) == 89 && Base64At([102, 111, 111, 98], 5) == 103;
  }

  lemma FirstGroup(b: seq<byte>)
    requires |b| >= 3 && b[0] == 102 && b[1] == 111 && b[2] == 111
    ensures Base64At(b, 0) == 90 && Base64At(b, 1) == 109 && Base64At(b, 2) == 57 && Base64At(b, 3) == 118
  {
  }

  predicate Spells(t: Text, s: string) {
    |t| == |s| && forall i :: 0 <= i < |t| ==> t[i] as int == s[i] as int
  }

  /** The lines around a symmetric key. */
  lemma MarkersSpelled()
    ensures Spells(KeyText.SYMMETRIC_KEY.begin, "-----BEGIN SYMMETRIC KEY-----")
    ensures Spells(KeyText.SYMMETRIC_KEY.end, "-----END SYMMETRIC KEY-----")
  {
  }

  /** The attribute names of a KMIP 1.x Register. */
  lemma NamesSpelled()
    ensures Spells(Keys.NAMES.name.name, "Name") && Spells(Keys.NAMES.group.name, "Object Group")
    ensures Spells(Keys.NAMES.algorithm.name, "Cryptographic Algorithm")
    ensures Spells(Keys.NAMES.length.name, "Cryptographic Length")
    ensures Spells(Keys.NAMES.mask.name, "Cryptographic Usage Mask")
  {
  }
}
