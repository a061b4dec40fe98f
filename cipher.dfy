/** The classical cipher decoder of the cipher page: Caesar, ROT13, Vigenère and Atbash
    decoding over strings, and the form handler that picks a decoder and turns the key
    field into a shift. Characters are compared by their code, letters are the ASCII
    ranges `A-Z` and `a-z`, and everything else is copied unchanged. */
module Cipher {
  import opened JsText

  /** Code of the first letter of `c`'s case range. */
  function Base(c: char): int { if IsUpper(c) then 65 else 97 }

  /** 0-based position of a letter within its own case range. */
  function Pos(c: char): int
    requires IsLetter(c)
  {
    c as int - Base(c)
  }

  /** Two letters with the same case and the same position are the same character. */
  lemma SamePosSameChar(c: char, d: char)
    requires IsLetter(c) && IsLetter(d) && IsUpper(c) == IsUpper(d) && Pos(c) == Pos(d)
    ensures c == d
  {
    assert c as int == d as int;
  }

  lemma ModShift(a: int, b: int)
    ensures (a % 26 + b) % 26 == (a + b) % 26
  {
  }

  // ---------------------------------------------------------------------------
  // Caesar and ROT13

  /** One character of `caesarDecode`: a letter goes to code
      `(code - base - shift + 26) % 26 + base` with JavaScript's truncating `%`; any
      other character is copied. For `shift <= 26` the dividend is never negative and
      the letter lands on the letter `shift` places earlier, cyclically. */
  function CaesarChar(c: char, shift: int): (d: char)
    ensures !IsLetter(c) ==> d == c
    ensures IsLetter(c) && shift <= 26 ==>
      IsLetter(d) && IsUpper(d) == IsUpper(c) && Pos(d) == (Pos(c) - shift) % 26
  {
    if 65 <= c as int <= 90 then (ShiftedPos(c as int - 65, shift) + 65) as char
    else if 97 <= c as int <= 122 then (ShiftedPos(c as int - 97, shift) + 97) as char
    else c
  }

  /** The position a letter at position `p` decodes to: `(p - shift + 26) % 26` with the
      truncating `%`, which is the cyclic position `shift` places earlier when the
      dividend is not negative. */
  function ShiftedPos(p: int, shift: int): (q: int)
    ensures -26 < q < 26
    ensures 0 <= p < 26 && shift <= 26 ==> 0 <= q && q == (p - shift) % 26
  {
    JsRem(p - shift + 26, 26)
  }

  /** `caesarDecode(text, shift)`: the character map applied to every character. */
  function CaesarDecode(text: string, shift: int): (r: string)
    ensures |r| == |text|
    ensures forall i :: 0 <= i < |text| && !IsLetter(text[i]) ==> r[i] == text[i]
    ensures shift <= 26 ==> forall i :: 0 <= i < |text| ==> (IsLetter(r[i]) <==> IsLetter(text[i]))
  {
    seq(|text|, i requires 0 <= i < |text| => CaesarChar(text[i], shift))
  }

  /** Letters stay letters under Caesar decoding exactly when the shift is at most 26:
      beyond that the single `+ 26` no longer keeps the dividend of `%` non-negative,
      and either `A` or `Z` decodes to a character below `A`. */
  lemma CaesarKeepsLettersIff(shift: int)
    ensures (forall c :: IsLetter(c) ==> IsLetter(CaesarChar(c, shift))) <==> shift <= 26
  {
    if shift > 26 {
      var c := if shift % 26 != 0 then 'A' else 'Z';
      assert (Pos(c) - shift + 26) % 26 != 0;
      var r := JsRem(c as int - 65 - shift + 26, 26);
      JsRem26(c as int - 65 - shift + 26);
      assert r < 0;
      assert !IsLetter(CaesarChar(c, shift));
    }
  }

  /** A shift of zero leaves every text unchanged. */
  lemma CaesarDecodeZero(text: string)
    ensures CaesarDecode(text, 0) == text
  {
    var r := CaesarDecode(text, 0);
    forall i | 0 <= i < |text| ensures r[i] == text[i] {
      if IsLetter(text[i]) {
        SamePosSameChar(r[i], text[i]);
      }
    }
  }

  /** Moving back `s` places and then back `26 - s` places returns to the start. */
  lemma BackAndForth(p: int, s: int)
    requires 0 <= p < 26
    ensures ((p - s) % 26 - (26 - s)) % 26 == p
  {
    ModShift(p - s, s - 26);
    assert (p - s) % 26 - (26 - s) == (p - s) % 26 + (s - 26);
    assert (p - s + (s - 26)) % 26 == (p - 26) % 26 == p;
  }

  /** Decoding by `s` and then by `26 - s` gives back the text, for `0 <= s <= 26`. */
  lemma CaesarCharInverse(c: char, s: int)
    requires 0 <= s <= 26
    ensures CaesarChar(CaesarChar(c, s), 26 - s) == c
  {
    if IsLetter(c) {
      var d := CaesarChar(c, s);
      var e := CaesarChar(d, 26 - s);
      assert IsLetter(d) && Pos(d) == (Pos(c) - s) % 26;
      BackAndForth(Pos(c), s);
      assert Pos(e) == Pos(c);
      SamePosSameChar(e, c);
    }
  }

  lemma {:induction false} CaesarDecodeInverse(text: string, s: int)
    requires 0 <= s <= 26
    ensures CaesarDecode(CaesarDecode(text, s), 26 - s) == text
  {
    var r := CaesarDecode(CaesarDecode(text, s), 26 - s);
    forall i | 0 <= i < |text| ensures r[i] == text[i] {
      CaesarCharInverse(text[i], s);
    }
  }

  /** ROT13 (`caesarDecode(text, 13)`) is an involution. */
  lemma Rot13Involution(text: string)
    ensures CaesarDecode(CaesarDecode(text, 13), 13) == text
  {
    CaesarDecodeInverse(text, 13);
  }

  /** Caesar encoding, the operation the decoder undoes: every letter moves `shift`
      places forward within its case, with a Euclidean remainder. */
  function CaesarEncodeChar(c: char, shift: int): (d: char)
    ensures !IsLetter(c) ==> d == c
    ensures IsLetter(c) ==> IsLetter(d) && IsUpper(d) == IsUpper(c) && Pos(d) == (Pos(c) + shift) % 26
  {
    if IsLetter(c) then (Base(c) + (Pos(c) + shift) % 26) as char else c
  }

  function CaesarEncode(text: string, shift: int): (r: string)
    ensures |r| == |text|
    ensures forall i :: 0 <= i < |text| ==> (IsLetter(r[i]) <==> IsLetter(text[i]))
  {
    seq(|text|, i requires 0 <= i < |text| => CaesarEncodeChar(text[i], shift))
  }

  /** Decoding undoes encoding for every shift up to 26, negative shifts included. */
  lemma CaesarCharRoundTrip(c: char, shift: int)
    requires shift <= 26
    ensures CaesarChar(CaesarEncodeChar(c, shift), shift) == c
  {
    if IsLetter(c) {
      var e := CaesarEncodeChar(c, shift);
      ModShift(Pos(c) + shift, -shift);
      SamePosSameChar(CaesarChar(e, shift), c);
    }
  }

  lemma {:induction false} CaesarRoundTrip(text: string, shift: int)
    requires shift <= 26
    ensures CaesarDecode(CaesarEncode(text, shift), shift) == text
  {
    var r := CaesarDecode(CaesarEncode(text, shift), shift);
    forall i | 0 <= i < |text| ensures r[i] == text[i] {
      CaesarCharRoundTrip(text[i], shift);
    }
  }

  /** The decoder as written fails its round trip at shift 27: `Z` encodes to `A`, and
      `A` decodes to `@` because `(0 - 27 + 26) % 26` is `-1` in JavaScript. The
      normalising decoder gives `Z` back. */
  lemma CaesarShift27Counterexample()
    ensures CaesarEncode("Z", 27) == "A"
    ensures CaesarDecode("A", 27) == "@"
    ensures CaesarDecode(CaesarEncode("Z", 27), 27) != "Z"
    ensures CaesarDecodeNormalized(CaesarEncode("Z", 27), 27) == "Z"
  {
    assert CaesarEncode("Z", 27)[0] == 'A';
    assert CaesarDecode("A", 27)[0] == '@';
    assert CaesarDecodeNormalized("A", 27)[0] == 'Z';
  }

  /** The Caesar character map with the remainder normalised as
      `((code - base - shift) % 26 + 26) % 26`, which is correct for every shift. */
  function CaesarCharNormalized(c: char, shift: int): (d: char)
    ensures !IsLetter(c) ==> d == c
    ensures IsLetter(c) ==>
      IsLetter(d) && IsUpper(d) == IsUpper(c) && Pos(d) == (Pos(c) - shift) % 26
  {
    if IsUpper(c) then
      NormalizedRem(c as int - 65 - shift);
      (JsRem(JsRem(c as int - 65 - shift, 26) + 26, 26) + 65) as char
    else if IsLower(c) then
      NormalizedRem(c as int - 97 - shift);
      (JsRem(JsRem(c as int - 97 - shift, 26) + 26, 26) + 97) as char
    else c
  }

  /** Adding 26 to the truncating remainder and taking it again gives the Euclidean one. */
  lemma NormalizedRem(x: int)
    ensures JsRem(JsRem(x, 26) + 26, 26) == x % 26
  {
    JsRem26(x);
    var r := JsRem(x, 26);
    ModShift(r + 26, x - r - 26);
  }

  function CaesarDecodeNormalized(text: string, shift: int): (r: string)
    ensures |r| == |text|
    ensures forall i :: 0 <= i < |text| ==> (IsLetter(r[i]) <==> IsLetter(text[i]))
    ensures forall i :: 0 <= i < |text| && !IsLetter(text[i]) ==> r[i] == text[i]
  {
    seq(|text|, i requires 0 <= i < |text| => CaesarCharNormalized(text[i], shift))
  }

  /** The normalising decoder undoes Caesar encoding for every integer shift. */
  lemma {:induction false} CaesarNormalizedRoundTrip(text: string, shift: int)
    ensures CaesarDecodeNormalized(CaesarEncode(text, shift), shift) == text
  {
    var r := CaesarDecodeNormalized(CaesarEncode(text, shift), shift);
    forall i | 0 <= i < |text| ensures r[i] == text[i] {
      CaesarCharNormalizedRoundTrip(text[i], shift);
    }
  }

  /** One character of the normalised round trip. */
  lemma CaesarCharNormalizedRoundTrip(c: char, shift: int)
    ensures CaesarCharNormalized(CaesarEncodeChar(c, shift), shift) == c
  {
    if IsLetter(c) {
      var d := CaesarEncodeChar(c, shift);
      var e := CaesarCharNormalized(d, shift);
      assert Pos(d) == (Pos(c) + shift) % 26;
      ModShift(Pos(c) + shift, -shift);
      assert Pos(e) == Pos(c);
      SamePosSameChar(e, c);
    }
  }

  /** Up to a shift of 26 the decoder as written and the normalising one agree. */
  lemma {:induction false} CaesarAgreesWithNormalized(text: string, shift: int)
    requires shift <= 26
    ensures CaesarDecode(text, shift) == CaesarDecodeNormalized(text, shift)
  {
    var a, b := CaesarDecode(text, shift), CaesarDecodeNormalized(text, shift);
    forall i | 0 <= i < |text| ensures a[i] == b[i] {
      if IsLetter(text[i]) {
        SamePosSameChar(a[i], b[i]);
      }
    }
  }

  // ---------------------------------------------------------------------------
  // Atbash

  /** One character of `atbashDecode`: the letter at position `p` of its case goes to
      position `25 - p`; other characters are copied. */
  function AtbashChar(c: char): (d: char)
    ensures !IsLetter(c) ==> d == c
    ensures IsLetter(c) ==> IsLetter(d) && IsUpper(d) == IsUpper(c) && Pos(d) == 25 - Pos(c)
  {
    if 65 <= c as int <= 90 then (65 + (25 - (c as int - 65))) as char
    else if 97 <= c as int <= 122 then (97 + (25 - (c as int - 97))) as char
    else c
  }

  function AtbashDecode(text: string): (r: string)
    ensures |r| == |text|
    ensures forall i :: 0 <= i < |text| && !IsLetter(text[i]) ==> r[i] == text[i]
  {
    seq(|text|, i requires 0 <= i < |text| => AtbashChar(text[i]))
  }

  /** Atbash decoding is an involution. */
  lemma {:induction false} AtbashInvolution(text: string)
    ensures AtbashDecode(AtbashDecode(text)) == text
  {
    var r := AtbashDecode(AtbashDecode(text));
    forall i | 0 <= i < |text| ensures r[i] == text[i] {
      if IsLetter(text[i]) {
        SamePosSameChar(r[i], text[i]);
      }
    }
  }

  // ---------------------------------------------------------------------------
  // Vigenère

  /** Number of letters in `s`: the value of the key counter `j` after `s` is read. */
  function LetterCount(s: string): (n: nat)
    ensures n <= |s|
  {
    if s == [] then 0 else LetterCount(s[..|s| - 1]) + (if IsLetter(s[|s| - 1]) then 1 else 0)
  }

  /** Reading one more character advances the counter exactly on a letter. */
  lemma LetterCountStep(s: string, i: nat)
    requires i < |s|
    ensures LetterCount(s[..i + 1]) == LetterCount(s[..i]) + (if IsLetter(s[i]) then 1 else 0)
  {
    assert s[..i + 1][..i] == s[..i];
  }

  /** Two strings with letters at the same positions have the same letter count. */
  lemma {:induction false} LetterCountSamePattern(a: string, b: string)
    requires |a| == |b|
    requires forall i :: 0 <= i < |a| ==> (IsLetter(a[i]) <==> IsLetter(b[i]))
    ensures LetterCount(a) == LetterCount(b)
  {
    if a != [] {
      LetterCountSamePattern(a[..|a| - 1], b[..|b| - 1]);
    }
  }

  /** `key.toLowerCase().replace(/[^a-z]/g, "")`: the effective key keeps the ASCII
      letters of the key, lower-cased, in order. */
  function NormalizeKey(key: string): (k: string)
    ensures |k| <= |key|
    ensures forall i :: 0 <= i < |k| ==> IsLower(k[i])
    ensures k == [] <==> forall i :: 0 <= i < |key| ==> !IsLetter(key[i])
  {
    if key == [] then []
    else
      var rest := NormalizeKey(key[1..]);
      assert forall i :: 1 <= i < |key| ==> key[i] == key[1..][i - 1];
      if IsLetter(key[0]) then [LowerAscii(key[0])] + rest else rest
  }

  /** The effective key is built character by character: it distributes over
      concatenation. */
  lemma {:induction false} NormalizeKeyConcat(a: string, b: string)
    ensures NormalizeKey(a + b) == NormalizeKey(a) + NormalizeKey(b)
  {
    if a == [] {
      assert a + b == b;
    } else {
      assert (a + b)[0] == a[0] && (a + b)[1..] == a[1..] + b;
      NormalizeKeyConcat(a[1..], b);
    }
  }

  /** One character of the key: an ASCII letter contributes its lower-case form, and any
      other character is dropped. */
  lemma NormalizeKeyChar(c: char)
    ensures NormalizeKey([c]) == if IsLetter(c) then [LowerAscii(c)] else []
  {
    assert [c][1..] == [];
  }

  /** A key that is already lower-case letters only is its own effective key. */
  lemma {:induction false} NormalizeKeyLower(key: string)
    requires forall i :: 0 <= i < |key| ==> IsLower(key[i])
    ensures NormalizeKey(key) == key
  {
    if key != [] {
      NormalizeKeyLower(key[1..]);
    }
  }

  /** One character of `vigenereDecode`, given the effective key and the number `j` of
      letters already read. A letter is Caesar-decoded by the shift
      `key[j % |key|] - 'a'`; with an empty effective key that shift is `NaN` in
      JavaScript and the letter becomes U+0000. */
  function VigenereChar(c: char, key: string, j: nat): (d: char)
    requires forall i :: 0 <= i < |key| ==> IsLower(key[i])
    ensures !IsLetter(c) ==> d == c
    ensures IsLetter(c) && key == [] ==> d == 0 as char
    ensures IsLetter(c) && key != [] ==>
      IsLetter(d) && IsUpper(d) == IsUpper(c) &&
      Pos(d) == (Pos(c) - KeyShift(key, j)) % 26
  {
    if !IsLetter(c) then c
    else if key == [] then 0 as char
    else CaesarChar(c, KeyShift(key, j))
  }

  /** `key.charCodeAt(j % key.length) - 97` for a non-empty effective key. */
  function KeyShift(key: string, j: nat): (shift: int)
    requires key != [] && forall i :: 0 <= i < |key| ==> IsLower(key[i])
    ensures 0 <= shift < 26
  {
    assert IsLower(key[j % |key|]);
    key[j % |key|] as int - 97
  }

  /** The Vigenère decoding of `text` under an effective key: the character at `i` is
      decoded with the key letter selected by the number of letters before it. */
  function VigenereSpec(text: string, key: string): (r: string)
    requires forall i :: 0 <= i < |key| ==> IsLower(key[i])
    ensures |r| == |text|
    ensures forall i :: 0 <= i < |text| && !IsLetter(text[i]) ==> r[i] == text[i]
  {
    seq(|text|, i requires 0 <= i < |text| => VigenereChar(text[i], key, LetterCount(text[..i])))
  }

  /** Decoding one more character appends its decoding to the decoded prefix. */
  lemma VigenereSpecStep(text: string, key: string, i: nat)
    requires forall m :: 0 <= m < |key| ==> IsLower(key[m])
    requires i < |text|
    ensures VigenereSpec(text[..i + 1], key) ==
            VigenereSpec(text[..i], key) + [VigenereChar(text[i], key, LetterCount(text[..i]))]
  {
    var p, q := text[..i + 1], text[..i];
    var lhs := VigenereSpec(p, key);
    var rhs := VigenereSpec(q, key) + [VigenereChar(text[i], key, LetterCount(q))];
    forall m | 0 <= m <= i ensures lhs[m] == rhs[m] {
      if m < i {
        assert p[..m] == q[..m];
      } else {
        assert p[..i] == q;
      }
    }
    assert lhs == rhs;
  }

  /** The decoding of a letter under a non-empty key, in the form the loop computes it:
      `base` is 65 for an upper-case letter and 97 for a lower-case one. */
  lemma VigenereLetterCode(c: char, key: string, j: nat, base: int)
    requires key != [] && forall i :: 0 <= i < |key| ==> IsLower(key[i])
    requires (base == 65 && IsUpper(c)) || (base == 97 && IsLower(c))
    ensures 0 <= JsRem(c as int - base - (key[j % |key|] as int - 97) + 26, 26) + base < 0xD800
    ensures VigenereChar(c, key, j) ==
      (JsRem(c as int - base - (key[j % |key|] as int - 97) + 26, 26) + base) as char
  {
  }

  /** `vigenereDecode(text, key)`: normalise the key, then walk the text with a counter
      `j` that advances on letters only. */
  method VigenereDecode(text: string, key: string) returns (r: string)
    ensures r == VigenereSpec(text, NormalizeKey(key))
  {
    var k := NormalizeKey(key);
    var result: seq<char> := [];
    var j := 0;
    assert |VigenereSpec(text[..0], k)| == 0;
    for i := 0 to |text|
      invariant j == LetterCount(text[..i])
      invariant result == VigenereSpec(text[..i], k)
    {
      LetterCountStep(text, i);
      VigenereSpecStep(text, k, i);
      var c := text[i];
      var code := c as int;
      var d: char;
      if 65 <= code <= 90 {
        if k == [] {
          d := 0 as char;
        } else {
          var shift := k[j % |k|] as int - 97;
          VigenereLetterCode(c, k, j, 65);
          d := (JsRem(code - 65 - shift + 26, 26) + 65) as char;
        }
        assert d == VigenereChar(c, k, j);
        j := j + 1;
      } else if 97 <= code <= 122 {
        if k == [] {
          d := 0 as char;
        } else {
          var shift := k[j % |k|] as int - 97;
          VigenereLetterCode(c, k, j, 97);
          d := (JsRem(code - 97 - shift + 26, 26) + 97) as char;
        }
        assert d == VigenereChar(c, k, j);
        j := j + 1;
      } else {
        d := c;
        assert d == VigenereChar(c, k, j);
      }
      result := result + [d];
    }
    assert text[..|text|] == text;
    r := result;
  }

  /** A one-letter key `'a' + s` decodes exactly as Caesar with shift `s`. */
  lemma {:induction false} VigenereOneLetterKey(text: string, s: int)
    requires 0 <= s < 26
    ensures VigenereSpec(text, [(97 + s) as char]) == CaesarDecode(text, s)
  {
    var a, b := VigenereSpec(text, [(97 + s) as char]), CaesarDecode(text, s);
    forall i | 0 <= i < |text| ensures a[i] == b[i] {
      assert LetterCount(text[..i]) % 1 == 0;
    }
  }

  /** Vigenère encoding under an effective key: the k-th letter moves forward by the
      key letter at `k mod |key|`. */
  function VigenereEncode(text: string, key: string): (r: string)
    requires key != [] && forall i :: 0 <= i < |key| ==> IsLower(key[i])
    ensures |r| == |text|
    ensures forall i :: 0 <= i < |text| ==> (IsLetter(r[i]) <==> IsLetter(text[i]))
  {
    seq(|text|, i requires 0 <= i < |text| =>
      CaesarEncodeChar(text[i], KeyShift(key, LetterCount(text[..i]))))
  }

  /** Vigenère decoding undoes Vigenère encoding under the same non-empty key. */
  lemma {:induction false} VigenereRoundTrip(text: string, key: string)
    requires key != [] && forall i :: 0 <= i < |key| ==> IsLower(key[i])
    ensures VigenereSpec(VigenereEncode(text, key), key) == text
  {
    var e := VigenereEncode(text, key);
    var r := VigenereSpec(e, key);
    forall i | 0 <= i < |text| ensures r[i] == text[i] {
      LetterCountSamePattern(e[..i], text[..i]);
      CaesarCharRoundTrip(text[i], KeyShift(key, LetterCount(text[..i])));
    }
  }

  /** With an empty effective key every letter decodes to U+0000 and nothing else changes. */
  lemma VigenereEmptyKey(text: string)
    ensures forall i :: 0 <= i < |text| && IsLetter(text[i]) ==> VigenereSpec(text, [])[i] == 0 as char
  {
  }

  // ---------------------------------------------------------------------------
  // The form handler

  /** The characters JavaScript's `parseInt` skips at the start: white space and line
      terminators. */
  predicate IsJsSpace(c: char) {
    var n := c as int;
    n == 0x09 || n == 0x0A || n == 0x0B || n == 0x0C || n == 0x0D || n == 0x20 ||
    n == 0xA0 || n == 0x1680 || (0x2000 <= n <= 0x200A) || n == 0x2028 ||
    n == 0x2029 || n == 0x202F || n == 0x205F || n == 0x3000 || n == 0xFEFF
  }

  predicate IsDecimalDigit(c: char) { '0' <= c <= '9' }

  predicate NoDecimalDigit(s: string) {
    forall i :: 0 <= i < |s| ==> !IsDecimalDigit(s[i])
  }

  /** The text after its leading white space: a suffix of `s`, everything dropped is white
      space, and what is kept does not start with white space. */
  function TrimStart(s: string): (t: string)
    ensures t != [] ==> !IsJsSpace(t[0])
    ensures NoDecimalDigit(s) ==> NoDecimalDigit(t)
  {
    if s != [] && IsJsSpace(s[0]) then TrimStart(s[1..]) else s
  }

  /** `TrimStart` keeps a suffix of `s` and drops only white space in front of it. */
  lemma {:induction false} TrimStartDropsSpace(s: string)
    ensures |TrimStart(s)| <= |s| && TrimStart(s) == s[|s| - |TrimStart(s)|..]
    ensures forall i :: 0 <= i < |s| - |TrimStart(s)| ==> IsJsSpace(s[i])
  {
    if s != [] && IsJsSpace(s[0]) {
      TrimStartDropsSpace(s[1..]);
      var t := TrimStart(s[1..]);
      assert s[1..][|s| - 1 - |t|..] == s[|s| - |t|..];
    }
  }

  /** White space in front of a text is skipped entirely. */
  lemma {:induction false} TrimStartSpace(ws: string, s: string)
    requires forall i :: 0 <= i < |ws| ==> IsJsSpace(ws[i])
    ensures TrimStart(ws + s) == TrimStart(s)
  {
    if ws == [] {
      assert ws + s == s;
    } else {
      assert (ws + s)[0] == ws[0] && (ws + s)[1..] == ws[1..] + s;
      TrimStartSpace(ws[1..], s);
    }
  }

  /** The longest prefix of `s` made of digits of the given radix. */
  function DigitRun(s: string, radix: nat): (z: string)
    ensures |z| <= |s|
  {
    if s != [] && DigitValue(s[0]) < radix then [s[0]] + DigitRun(s[1..], radix) else []
  }

  /** The text after an optional leading `+` or `-`. */
  function DropSign(t: string): (u: string)
    ensures NoDecimalDigit(t) ==> NoDecimalDigit(u)
  {
    if t != [] && (t[0] == '-' || t[0] == '+') then t[1..] else t
  }

  /** `0x` or `0X` in front: the digits that follow are hexadecimal. */
  predicate HasHexPrefix(u: string) {
    |u| >= 2 && u[0] == '0' && (u[1] == 'x' || u[1] == 'X')
  }

  function Radix(u: string): (radix: nat)
    ensures radix == 10 || radix == 16
  {
    if HasHexPrefix(u) then 16 else 10
  }

  function DigitsAfterPrefix(u: string): (w: string)
    ensures NoDecimalDigit(u) ==> NoDecimalDigit(w)
  {
    if HasHexPrefix(u) then u[2..] else u
  }

  /** `parseInt(s)` with no radix: skip leading white space, take an optional sign and an
      optional `0x`/`0X` prefix, then the longest run of digits; no digits gives `NaN`
      (here `None`). Numbers are exact integers here. */
  function ParseInt(s: string): (n: Option<int>)
  {
    var t := TrimStart(s);
    var u := DropSign(t);
    var z := DigitRun(DigitsAfterPrefix(u), Radix(u));
    if z == [] then None
    else
      var v: int := DigitsValue(z, HasHexPrefix(u));
      Some(if t != [] && t[0] == '-' then -v else v)
  }

  /** A non-empty text made only of decimal digits. */
  predicate IsDecimalText(s: string) {
    s != [] && forall i :: 0 <= i < |s| ==> IsDecimalDigit(s[i])
  }

  /** `parseInt(key) || 0`: `NaN` (and `-0`) fall back to a shift of zero. A key without
      digits gives 0, a run of decimal digits gives its value, and a `-` before such a run
      gives the negated value. The last two clauses state the shift in terms of the parse
      itself, for callers such as `HandleDecode` that reason about `ParseInt` directly. */
  function ShiftFromKey(key: string): (shift: int)
    ensures NoDecimalDigit(key) ==> shift == 0
    ensures IsDecimalText(key) ==> shift == DigitsValue(key, false)
    ensures key != [] && key[0] == '-' && IsDecimalText(key[1..]) ==>
      shift == -(DigitsValue(key[1..], false) as int)
    ensures ParseInt(key) == None ==> shift == 0
    ensures ParseInt(key).Some? ==> shift == ParseInt(key).value
  {
    ParseIntCases(key);
    match ParseInt(key)
    case None => 0
    case Some(n) => n
  }

  /** What `parseInt` gives on the three shapes of key the cipher form meets: `NaN` without
      any decimal digit, the value of a run of decimal digits, and the negated value after
      a `-`. */
  lemma ParseIntCases(key: string)
    ensures NoDecimalDigit(key) ==> ParseInt(key) == None
    ensures IsDecimalText(key) ==> ParseInt(key) == Some(DigitsValue(key, false))
    ensures key != [] && key[0] == '-' && IsDecimalText(key[1..]) ==>
      ParseInt(key) == Some(-(DigitsValue(key[1..], false) as int))
  {
    if NoDecimalDigit(key) {
      NoDigitNoNumber(key);
    }
    if IsDecimalText(key) {
      ParseIntDecimal(key);
    }
    if key != [] && key[0] == '-' && IsDecimalText(key[1..]) {
      ParseIntNegativeKey(key);
    }
  }

  /** A key made of `-` and decimal digits parses to the negated value of the digits. */
  lemma ParseIntNegativeKey(key: string)
    requires key != [] && key[0] == '-' && IsDecimalText(key[1..])
    ensures ParseInt(key) == Some(-(DigitsValue(key[1..], false) as int))
  {
    DecimalStages(key[1..]);
    assert TrimStart(key) == key by {
      assert !IsJsSpace(key[0]);
    }
    ParseIntMinus(key, key[1..]);
  }

  /** White space in front of a key does not change its number. */
  lemma ParseIntSkipsSpace(ws: string, s: string)
    requires forall i :: 0 <= i < |ws| ==> IsJsSpace(ws[i])
    ensures ParseInt(ws + s) == ParseInt(s)
  {
    TrimStartSpace(ws, s);
    SameTrimSameNumber(ws + s, s);
  }

  /** `ParseInt` reads only what is left after the leading white space. */
  lemma SameTrimSameNumber(a: string, b: string)
    requires TrimStart(a) == TrimStart(b)
    ensures ParseInt(a) == ParseInt(b)
  {
  }

  /** The digit run stops at the first character that is no digit of the radix. */
  lemma {:induction false} DigitRunStops(digits: string, rest: string, radix: nat)
    requires forall i :: 0 <= i < |digits| ==> DigitValue(digits[i]) < radix
    requires rest == [] || DigitValue(rest[0]) >= radix
    ensures DigitRun(digits + rest, radix) == digits
  {
    if digits != [] {
      assert (digits + rest)[1..] == digits[1..] + rest;
      DigitRunStops(digits[1..], rest, radix);
    }
  }

  /** Whatever follows a decimal digit run is ignored, once it starts with a character that
      is no decimal digit (and is not the `x` of a `0x` prefix): `parseInt("12px")` is 12. */
  lemma ParseIntIgnoresTail(digits: string, rest: string)
    requires IsDecimalText(digits)
    requires rest == [] || (!IsDecimalDigit(rest[0]) && rest[0] != 'x' && rest[0] != 'X')
    ensures ParseInt(digits + rest) == Some(DigitsValue(digits, false))
  {
    var s := digits + rest;
    assert s[0] == digits[0] && IsDecimalDigit(digits[0]);
    assert TrimStart(s) == s by {
      assert !IsJsSpace(s[0]);
    }
    assert DropSign(s) == s;
    assert !HasHexPrefix(s) by {
      if |s| >= 2 {
        if |digits| >= 2 {
          assert s[1] == digits[1] && IsDecimalDigit(digits[1]);
        } else {
          assert s[1] == rest[0];
        }
      }
    }
    assert DigitRun(s, 10) == digits by {
      forall i | 0 <= i < |digits| ensures DigitValue(digits[i]) < 10 {
        assert IsDecimalDigit(digits[i]);
      }
      DigitRunStops(digits, rest, 10);
    }
    ParseIntOfParts(s, s, s, digits);
  }

  /** A key with no decimal digit anywhere is not a number. */
  lemma NoDigitNoNumber(key: string)
    requires NoDecimalDigit(key)
    ensures ParseInt(key) == None
  {
    var u := DropSign(TrimStart(key));
    var w := DigitsAfterPrefix(u);
    assert !HasHexPrefix(u) by {
      if |u| >= 2 {
        assert !IsDecimalDigit(u[0]);
      }
    }
    assert DigitRun(w, 10) == [] by {
      if w != [] {
        assert !IsDecimalDigit(w[0]);
      }
    }
  }

  lemma {:induction false} DigitRunAll(z: string, radix: nat)
    requires forall i :: 0 <= i < |z| ==> DigitValue(z[i]) < radix
    ensures DigitRun(z, radix) == z
  {
    if z != [] {
      DigitRunAll(z[1..], radix);
    }
  }

  /** A non-empty run of decimal digits parses to its decimal value. */
  lemma ParseIntDecimal(digits: string)
    requires digits != [] && forall i :: 0 <= i < |digits| ==> IsDecimalDigit(digits[i])
    ensures ParseInt(digits) == Some(DigitsValue(digits, false))
  {
    DecimalStages(digits);
    ParseIntOfParts(digits, digits, digits, digits);
  }

  /** A `-` followed by decimal digits parses to the negated value. */
  lemma ParseIntNegative(digits: string)
    requires digits != [] && forall i :: 0 <= i < |digits| ==> IsDecimalDigit(digits[i])
    ensures ParseInt(['-'] + digits) == Some(-(DigitsValue(digits, false) as int))
  {
    var s := ['-'] + digits;
    assert TrimStart(s) == s && DropSign(s) == digits && s[0] == '-' by {
      assert !IsJsSpace(s[0]);
      assert s[1..] == digits;
    }
    assert !HasHexPrefix(digits) && DigitRun(digits, 10) == digits by {
      DecimalStages(digits);
    }
    ParseIntMinus(s, digits);
  }

  /** `ParseInt` of a `-` and a decimal digit run, from its stages. */
  lemma ParseIntMinus(s: string, digits: string)
    requires s != [] && s[0] == '-' && TrimStart(s) == s && DropSign(s) == digits
    requires !HasHexPrefix(digits) && DigitRun(digits, 10) == digits && digits != []
    ensures ParseInt(s) == Some(-(DigitsValue(digits, false) as int))
  {
    ParseIntOfParts(s, s, digits, digits);
  }

  /** The stages of `ParseInt` on a run of decimal digits. */
  lemma DecimalStages(digits: string)
    requires digits != [] && forall i :: 0 <= i < |digits| ==> IsDecimalDigit(digits[i])
    ensures TrimStart(digits) == digits && DropSign(digits) == digits
    ensures !HasHexPrefix(digits) && DigitsAfterPrefix(digits) == digits && Radix(digits) == 10
    ensures DigitRun(digits, 10) == digits
  {
    assert IsDecimalDigit(digits[0]);
    assert TrimStart(digits) == digits by {
      assert !IsJsSpace(digits[0]);
    }
    assert DropSign(digits) == digits;
    assert !HasHexPrefix(digits) by {
      if |digits| >= 2 {
        assert IsDecimalDigit(digits[1]);
      }
    }
    DecimalDigitsRun(digits);
  }

  /** A string of decimal digits is its own longest run of base-10 digits. */
  lemma DecimalDigitsRun(digits: string)
    requires forall i :: 0 <= i < |digits| ==> IsDecimalDigit(digits[i])
    ensures DigitRun(digits, 10) == digits
  {
    forall i | 0 <= i < |digits| ensures DigitValue(digits[i]) < 10 {
      assert IsDecimalDigit(digits[i]);
    }
    DigitRunAll(digits, 10);
  }

  /** `ParseInt` in terms of its stages, for a text that does have digits. */
  lemma ParseIntOfParts(s: string, t: string, u: string, z: string)
    requires t == TrimStart(s) && u == DropSign(t)
    requires z == DigitRun(DigitsAfterPrefix(u), Radix(u)) && z != []
    ensures ParseInt(s) == Some(if t != [] && t[0] == '-' then -(DigitsValue(z, HasHexPrefix(u)) as int)
                                else DigitsValue(z, HasHexPrefix(u)))
  {
  }

  /** `handleDecode`: the decoded text shown for a cipher type, input and key field. */
  method HandleDecode(cipherType: string, inputText: string, key: string) returns (result: string)
    ensures cipherType == "caesar" ==> result == CaesarDecode(inputText, ShiftFromKey(key))
    ensures cipherType == "caesar" && ParseInt(key) == None ==> result == inputText
    ensures cipherType == "caesar" && NoDecimalDigit(key) ==> result == inputText
    ensures cipherType == "vigenere" ==> result == VigenereSpec(inputText, NormalizeKey(key))
    ensures cipherType == "atbash" ==> result == AtbashDecode(inputText)
    ensures cipherType == "rot13" ==> result == CaesarDecode(inputText, 13)
    ensures cipherType == "rot13" ==> CaesarDecode(result, 13) == inputText
    ensures (cipherType != "caesar" && cipherType != "vigenere" && cipherType != "atbash" &&
             cipherType != "rot13") ==> result == ""
  {
    result := "";
    if cipherType == "caesar" {
      var shift := ShiftFromKey(key);
      result := CaesarDecode(inputText, shift);
      if shift == 0 {
        CaesarDecodeZero(inputText);
      }
    } else if cipherType == "vigenere" {
      result := VigenereDecode(inputText, key);
    } else if cipherType == "atbash" {
      result := AtbashDecode(inputText);
    } else if cipherType == "rot13" {
      result := CaesarDecode(inputText, 13);
      Rot13Involution(inputText);
    }
  }

  /** Worked examples of the four decoders. */
  lemma CaesarExample()
    ensures CaesarDecode("KHOOR", 3) == "HELLO"
  {
  }

  lemma Rot13Example()
    ensures CaesarDecode("URYYB", 13) == "HELLO"
  {
  }

  lemma AtbashExample()
    ensures AtbashDecode("SVOOL") == "HELLO"
  {
  }

  /** In a text made only of letters, the key index of each letter is its position. */
  lemma {:induction false} LetterCountAllLetters(s: string)
    requires forall i :: 0 <= i < |s| ==> IsLetter(s[i])
    ensures LetterCount(s) == |s|
  {
    if s != [] {
      LetterCountAllLetters(s[..|s| - 1]);
    }
  }

  /** The upper-case key `KEY` is the effective key `key`. */
  lemma NormalizeKeyExample()
    ensures NormalizeKey("KEY") == "key"
  {
    NormalizeKeyChar('K');
    NormalizeKeyChar('E');
    NormalizeKeyChar('Y');
    NormalizeKeyConcat(['E'], ['Y']);
    NormalizeKeyConcat(['K'], ['E', 'Y']);
    assert "KEY" == ['K'] + (['E'] + ['Y']);
  }

  /** The key field `KEY` decodes `RIJVS` to `HELLO`. */
  lemma VigenereExample()
    ensures VigenereSpec("RIJVS", NormalizeKey("KEY")) == "HELLO"
  {
    NormalizeKeyExample();
    VigenereLowerKeyExample();
  }

  lemma VigenereLowerKeyExample()
    ensures VigenereSpec("RIJVS", "key") == "HELLO"
    ensures VigenereSpec("", "anykey") == ""
  {
    var t, k := "RIJVS", "key";
    var r := VigenereSpec(t, k);
    LetterCountAllLetters(t[..1]);
    LetterCountAllLetters(t[..2]);
    LetterCountAllLetters(t[..3]);
    LetterCountAllLetters(t[..4]);
    assert r[0] == CaesarChar('R', 10) == 'H';
    assert r[1] == CaesarChar('I', 4) == 'E';
    assert r[2] == CaesarChar('J', 24) == 'L';
    assert r[3] == CaesarChar('V', 10) == 'L';
    assert r[4] == CaesarChar('S', 4) == 'O';
  }
}
