/** The 29-symbol alphabet of hillcipher.py and the translation between text and
    numeric codes. */
module Codec {
  import Modular

  /** Space, full stop, question mark, then A to Z; a symbol's code is its position. */
  const Alphabet: string := " .?ABCDEFGHIJKLMNOPQRSTUVWXYZ"

  /** `len(alphabet)`, the modulus of all cipher arithmetic. */
  const AlphabetSize: nat := 29

  lemma AlphabetFacts()
    ensures |Alphabet| == AlphabetSize
    ensures forall i, j :: 0 <= i < j < |Alphabet| ==> Alphabet[i] != Alphabet[j]
  {
  }

  /** Membership in the alphabet, spelled out as character ranges. */
  predicate IsSymbol(c: char) {
    c == ' ' || c == '.' || c == '?' || 'A' <= c <= 'Z'
  }

  lemma SymbolInAlphabet(c: char)
    ensures IsSymbol(c) <==> c in Alphabet
  {
    if 'A' <= c <= 'Z' {
      assert Alphabet[c as int - 'A' as int + 3] == c;
    }
  }

  predicate IsAscii(msg: string) {
    forall i :: 0 <= i < |msg| ==> msg[i] as int < 128
  }

  /** ASCII upper-casing, what Python's `str.upper` does on ASCII text. */
  function Upper(c: char): (u: char)
    requires c as int < 128
    ensures 'a' <= c <= 'z' ==> u as int == c as int - 32
    ensures !('a' <= c <= 'z') ==> u == c
    ensures !('a' <= u <= 'z')
  {
    if 'a' <= c <= 'z' then (c as int - 32) as char else c
  }

  /** `alphabet.index(c)`: the position of the first occurrence of c. */
  function IndexOf(s: string, c: char): (k: nat)
    requires c in s
    ensures k < |s| && s[k] == c
    ensures forall j :: 0 <= j < k ==> s[j] != c
  {
    if s[0] == c then 0 else 1 + IndexOf(s[1..], c)
  }

  /** The code of an alphabet symbol. */
  function CodeOf(c: char): (k: nat)
    requires IsSymbol(c)
    ensures k < AlphabetSize && Alphabet[k] == c
  {
    SymbolInAlphabet(c);
    IndexOf(Alphabet, c)
  }

  /** `AlphaMessage_to_NumericMessage`: upper-case the text and emit the code of every
      character that is in the alphabet, skipping the others. */
  function Encode(msg: string): (codes: seq<int>)
    requires IsAscii(msg)
    ensures |codes| <= |msg|
    ensures forall i :: 0 <= i < |codes| ==> 0 <= codes[i] < AlphabetSize
  {
    if |msg| == 0 then []
    else
      var u := Upper(msg[0]);
      var rest := Encode(msg[1..]);
      if IsSymbol(u) then [CodeOf(u)] + rest else rest
  }

  /** `NumericMessage_to_AlphaMessage`: one symbol per code, reducing the code modulo 29. */
  function Decode(codes: seq<int>): (text: string)
    ensures |text| == |codes|
    ensures forall i :: 0 <= i < |text| ==> IsSymbol(text[i])
  {
    seq(|codes|, i requires 0 <= i < |codes| => Alphabet[codes[i] % AlphabetSize])
  }

  /** Decoding distributes over concatenation. */
  lemma DecodeAppend(a: seq<int>, b: seq<int>)
    ensures Decode(a + b) == Decode(a) + Decode(b)
  {
    var l, r := Decode(a + b), Decode(a) + Decode(b);
    forall i | 0 <= i < |l|
      ensures l[i] == r[i]
    {
      if i >= |a| {
        assert (a + b)[i] == b[i - |a|];
      }
    }
  }

  /** The text the cipher actually sees: the upper-cased characters that are in the alphabet. */
  function Keep(msg: string): (kept: string)
    requires IsAscii(msg)
  {
    if |msg| == 0 then []
    else if IsSymbol(Upper(msg[0])) then [Upper(msg[0])] + Keep(msg[1..])
    else Keep(msg[1..])
  }

  /** Each code reduced modulo 29. */
  function ReduceCodes(codes: seq<int>): (r: seq<int>)
    ensures |r| == |codes|
  {
    seq(|codes|, i requires 0 <= i < |codes| => codes[i] % AlphabetSize)
  }

  /** Decoding distributes over a leading code. */
  lemma DecodeCons(c: int, rest: seq<int>)
    ensures Decode([c] + rest) == [Alphabet[c % AlphabetSize]] + Decode(rest)
  {
    var l, r := Decode([c] + rest), [Alphabet[c % AlphabetSize]] + Decode(rest);
    assert |l| == |r|;
    forall i | 0 <= i < |l|
      ensures l[i] == r[i]
    {
      if i > 0 {
        assert ([c] + rest)[i] == rest[i - 1];
      }
    }
  }

  /** Decoding the codes of a text gives back the upper-cased text with the
      characters outside the alphabet removed. */
  lemma {:induction false} DecodeEncode(msg: string)
    requires IsAscii(msg)
    ensures Decode(Encode(msg)) == Keep(msg)
    decreases |msg|
  {
    if |msg| > 0 {
      DecodeEncode(msg[1..]);
      var u := Upper(msg[0]);
      if IsSymbol(u) {
        var k := CodeOf(u);
        assert Encode(msg) == [k] + Encode(msg[1..]);
        DecodeCons(k, Encode(msg[1..]));
        Modular.ModSmall(k, AlphabetSize);
        assert Keep(msg) == [u] + Keep(msg[1..]);
      } else {
        assert Encode(msg) == Encode(msg[1..]);
        assert Keep(msg) == Keep(msg[1..]);
      }
    }
  }

  /** No character is lost exactly when every upper-cased character is in the alphabet. */
  lemma {:induction false} EncodeKeepsAll(msg: string)
    requires IsAscii(msg)
    ensures |Encode(msg)| == |msg| <==> forall i :: 0 <= i < |msg| ==> IsSymbol(Upper(msg[i]))
    decreases |msg|
  {
    if |msg| > 0 {
      EncodeKeepsAll(msg[1..]);
      assert forall i :: 1 <= i < |msg| ==> msg[1..][i - 1] == msg[i];
    }
  }

  /** Every symbol of the alphabet is upper-case already. */
  lemma AlphabetIsUpper(c: char)
    requires IsSymbol(c)
    ensures c as int < 128 && Upper(c) == c
  {
  }

  /** The code of the symbol at position k is k: the symbols are distinct. */
  lemma CodeOfSymbol(k: nat)
    requires k < AlphabetSize
    ensures CodeOf(Alphabet[k]) == k
  {
    AlphabetFacts();
  }

  lemma ReduceCodesCons(codes: seq<int>)
    requires |codes| > 0
    ensures ReduceCodes(codes) == [codes[0] % AlphabetSize] + ReduceCodes(codes[1..])
  {
    var l, r := ReduceCodes(codes), [codes[0] % AlphabetSize] + ReduceCodes(codes[1..]);
    forall i | 0 <= i < |l|
      ensures l[i] == r[i]
    {
      if i > 0 {
        assert r[i] == ReduceCodes(codes[1..])[i - 1] == codes[1..][i - 1] % AlphabetSize;
      }
    }
  }

  /** Decoded text is ASCII, so it can be encoded again. */
  lemma DecodeIsAscii(codes: seq<int>)
    ensures IsAscii(Decode(codes))
  {
    var text := Decode(codes);
    forall i | 0 <= i < |text|
      ensures text[i] as int < 128
    {
      AlphabetIsUpper(text[i]);
    }
  }

  /** Encoding a text that starts with an alphabet symbol emits that symbol's code first. */
  lemma EncodeSymbolCons(c: char, t: string)
    requires IsSymbol(c) && IsAscii(t)
    ensures IsAscii([c] + t)
    ensures Encode([c] + t) == [CodeOf(c)] + Encode(t)
  {
    AlphabetIsUpper(c);
    assert ([c] + t)[1..] == t;
  }

  /** Re-encoding decoded text gives back the codes reduced modulo 29: decoded
      symbols are alphabet members and upper-case, so none is dropped or changed. */
  lemma {:induction false} EncodeDecode(codes: seq<int>)
    ensures IsAscii(Decode(codes))
    ensures Encode(Decode(codes)) == ReduceCodes(codes)
    decreases |codes|
  {
    DecodeIsAscii(codes);
    if |codes| > 0 {
      var k := codes[0] % AlphabetSize;
      var tail := Decode(codes[1..]);
      assert codes == [codes[0]] + codes[1..];
      DecodeCons(codes[0], codes[1..]);
      EncodeDecode(codes[1..]);
      var c := Decode(codes)[0];
      assert c == Alphabet[k];
      EncodeSymbolCons(c, tail);
      CodeOfSymbol(k);
      ReduceCodesCons(codes);
    }
  }

  /** Decoding codes already in [0, 29) and encoding again is the identity. */
  lemma EncodeDecodeCodes(codes: seq<int>)
    requires forall i :: 0 <= i < |codes| ==> 0 <= codes[i] < AlphabetSize
    ensures IsAscii(Decode(codes))
    ensures Encode(Decode(codes)) == codes
  {
    EncodeDecode(codes);
    forall i | 0 <= i < |codes|
      ensures ReduceCodes(codes)[i] == codes[i]
    {
      Modular.ModSmall(codes[i], AlphabetSize);
    }
  }
}
