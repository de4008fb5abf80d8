/** `vigenere(mode, text, key)` of index.js: a polyalphabetic shift whose key
    letter advances only on letters of the text. */
module VigenereCipher {
  import opened Ascii
  import opened Runtime

  /** The cleaned key: every character that is not a letter removed, the
      letters kept in order and upper-cased. */
  function CleanKey(key: string): (r: string)
    ensures |r| <= |key|
    ensures forall i :: 0 <= i < |r| ==> IsUpper(r[i])
    ensures r == [] <==> forall i :: 0 <= i < |key| ==> !IsLetter(key[i])
    ensures |r| == LettersBefore(key, |key|)
    ensures forall i :: 0 <= i < |key| && IsLetter(key[i]) ==> LettersBefore(key, i) < |r|
    ensures forall i :: 0 <= i < |key| && IsLetter(key[i]) ==> r[LettersBefore(key, i)] == ToUpper(key[i])
  {
    if key == [] then []
    else
      LettersBeforeTail(key);
      (if IsLetter(key[0]) then [ToUpper(key[0])] else []) + CleanKey(key[1..])
  }

  /** Counting letters past the first character of `t` counts them in
      `t[1..]`. */
  lemma LettersBeforeTail(t: string)
    requires t != []
    ensures forall i :: 0 <= i < |t| ==>
      LettersBefore(t, i + 1) == (if IsLetter(t[0]) then 1 else 0) + LettersBefore(t[1..], i)
  {
    forall i | 0 <= i < |t|
      ensures LettersBefore(t, i + 1) == (if IsLetter(t[0]) then 1 else 0) + LettersBefore(t[1..], i)
    {
      LettersBeforeShift(t, i);
    }
  }

  lemma {:induction false} LettersBeforeShift(t: string, i: nat)
    requires i < |t|
    ensures LettersBefore(t, i + 1) == (if IsLetter(t[0]) then 1 else 0) + LettersBefore(t[1..], i)
  {
    if i > 0 {
      LettersBeforeShift(t, i - 1);
    }
  }

  /** The number of letters among the first `i` characters of `t`: the value
      of the key index `ki` when the loop reaches position `i`. */
  function LettersBefore(t: string, i: nat): (n: nat)
    requires i <= |t|
    ensures n <= i
  {
    if i == 0 then 0 else LettersBefore(t, i - 1) + (if IsLetter(t[i - 1]) then 1 else 0)
  }

  /** The code of 'a' for a lower-case letter, of 'A' for any other. */
  function CaseBase(c: char): int
  {
    if IsLower(c) then 97 else 65
  }

  /** One letter of the loop body: offset within its own case plus or minus the
      key letter's value (A = 0), brought back into [0, 26). */
  function ShiftLetter(mode: Mode, c: char, k: char): (r: char)
    requires IsLetter(c) && IsUpper(k)
    ensures IsLetter(r) && (IsLower(r) <==> IsLower(c))
    ensures mode == Encrypt ==> r as int - CaseBase(c) == (c as int - CaseBase(c) + (k as int - 65)) % 26
    ensures mode == Decrypt ==> r as int - CaseBase(c) == (c as int - CaseBase(c) - (k as int - 65)) % 26
  {
    var base := if c >= 'a' then 97 else 65;
    var off := (c as int - base) + (if mode == Encrypt then 1 else -1) * (k as int - 65);
    var off' := if off < 0 then off + 26 else off;
    (base + off' % 26) as char
  }

  /** Letter `j` of the text (counting letters only) is shifted by key letter
      `j mod |key|`; every other character is copied. */
  function Encipher(mode: Mode, text: string, key: string): (r: string)
    requires key != [] && forall i :: 0 <= i < |key| ==> IsUpper(key[i])
    ensures |r| == |text|
    ensures forall i :: 0 <= i < |text| ==> (IsLetter(r[i]) <==> IsLetter(text[i]))
    ensures forall i :: 0 <= i < |text| && !IsLetter(text[i]) ==> r[i] == text[i]
    ensures forall i :: 0 <= i < |text| && IsLetter(text[i]) ==> (IsLower(r[i]) <==> IsLower(text[i]))
    ensures forall i :: 0 <= i < |text| && IsLetter(text[i]) && mode == Encrypt ==>
      var base, kc := CaseBase(text[i]), key[LettersBefore(text, i) % |key|];
      r[i] as int - base == (text[i] as int - base + (kc as int - 65)) % 26
    ensures forall i :: 0 <= i < |text| && IsLetter(text[i]) && mode == Decrypt ==>
      var base, kc := CaseBase(text[i]), key[LettersBefore(text, i) % |key|];
      r[i] as int - base == (text[i] as int - base - (kc as int - 65)) % 26
  {
    seq(|text|, i requires 0 <= i < |text| => KeyedChar(mode, text, key, i))
  }

  /** Position `i` of the enciphered text: a letter shifted by the key letter
      its letter count selects, any other character copied. */
  function KeyedChar(mode: Mode, text: string, key: string, i: nat): char
    requires key != [] && forall j :: 0 <= j < |key| ==> IsUpper(key[j])
    requires i < |text|
  {
    if IsLetter(text[i]) then ShiftLetter(mode, text[i], key[LettersBefore(text, i) % |key|])
    else text[i]
  }

  /** `vigenere(mode, text, key)`: "Key required" when the key has no letters.
      `VigenereUsesKeyIndex` states which key letter shifts each letter. */
  function Vigenere(mode: Mode, text: string, key: string): (r: string)
    ensures CleanKey(key) == [] ==> r == KeyRequired
    ensures CleanKey(key) != [] ==> |r| == |text|
    ensures CleanKey(key) != [] ==>
      forall i :: 0 <= i < |text| && !IsLetter(text[i]) ==> r[i] == text[i]
    ensures CleanKey(key) != [] ==>
      forall i :: 0 <= i < |text| && IsLetter(text[i]) ==>
        IsLetter(r[i]) && (IsLower(r[i]) <==> IsLower(text[i]))
  {
    var k := CleanKey(key);
    if k == [] then KeyRequired else Encipher(mode, text, k)
  }

  /** Letter `i` of the text is shifted by key letter number (letters before
      `i`) modulo the length of the cleaned key. */
  lemma VigenereUsesKeyIndex(mode: Mode, text: string, key: string, i: nat)
    requires CleanKey(key) != [] && i < |text| && IsLetter(text[i])
    ensures Vigenere(mode, text, key)[i] ==
      ShiftLetter(mode, text[i], CleanKey(key)[LettersBefore(text, i) % |CleanKey(key)|])
  {
  }

  /** `vigenere`: the key is cleaned, refused when it has no letters, and
      otherwise handed to the loop. */
  method RunVigenere(mode: Mode, text: string, key: string) returns (res: string)
    ensures res == Vigenere(mode, text, key)
  {
    var k := CleanKey(key);
    if k == [] {
      return KeyRequired;
    }
    res := ShiftLoop(mode, text, k);
  }

  /** The loop of `vigenere`: `res` grows by one character per step, and the
      key index `ki` moves only on letters. */
  method ShiftLoop(mode: Mode, text: string, k: string) returns (res: string)
    requires k != [] && forall i :: 0 <= i < |k| ==> IsUpper(k[i])
    ensures res == Encipher(mode, text, k)
  {
    res := [];
    var ki := 0;
    for i := 0 to |text|
      invariant ki == LettersBefore(text, i)
      invariant |res| == i
      invariant forall j :: 0 <= j < i ==> res[j] == KeyedChar(mode, text, k, j)
    {
      var c := text[i];
      if IsLetter(c) {
        res := res + [ShiftLetter(mode, c, k[ki % |k|])];
        ki := ki + 1;
      } else {
        res := res + [c];
      }
    }
  }

  /** Enciphering keeps letters letters, so the key index agrees at every
      position of the text and of its ciphertext. */
  lemma {:induction false} LettersBeforeKept(mode: Mode, text: string, key: string, i: nat)
    requires key != [] && forall j :: 0 <= j < |key| ==> IsUpper(key[j])
    requires i <= |text|
    ensures LettersBefore(Encipher(mode, text, key), i) == LettersBefore(text, i)
  {
    if i > 0 {
      LettersBeforeKept(mode, text, key, i - 1);
    }
  }

  /** Shifting a letter by a key letter one way and then the other returns it. */
  lemma ShiftLetterInverse(c: char, k: char)
    requires IsLetter(c) && IsUpper(k)
    ensures ShiftLetter(Decrypt, ShiftLetter(Encrypt, c, k), k) == c
    ensures ShiftLetter(Encrypt, ShiftLetter(Decrypt, c, k), k) == c
  {
    ShiftForwardBack(c, k);
    ShiftBackForward(c, k);
  }

  lemma ShiftForwardBack(c: char, k: char)
    requires IsLetter(c) && IsUpper(k)
    ensures ShiftLetter(Decrypt, ShiftLetter(Encrypt, c, k), k) == c
  {
    var base := if c >= 'a' then 97 else 65;
    var x, d := c as int - base, k as int - 65;
    var e := ShiftLetter(Encrypt, c, k);
    if x + d < 26 {
      assert e as int - base == x + d;
    } else {
      assert e as int - base == x + d - 26;
    }
  }

  lemma ShiftBackForward(c: char, k: char)
    requires IsLetter(c) && IsUpper(k)
    ensures ShiftLetter(Encrypt, ShiftLetter(Decrypt, c, k), k) == c
  {
    var base := if c >= 'a' then 97 else 65;
    var x, d := c as int - base, k as int - 65;
    var b := ShiftLetter(Decrypt, c, k);
    if x - d >= 0 {
      assert b as int - base == x - d;
    } else {
      assert b as int - base == x - d + 26;
    }
  }

  /** Decryption undoes encryption and encryption undoes decryption, for every
      key that has at least one letter. */
  lemma VigenereRoundTrip(text: string, key: string)
    requires CleanKey(key) != []
    ensures Vigenere(Decrypt, Vigenere(Encrypt, text, key), key) == text
    ensures Vigenere(Encrypt, Vigenere(Decrypt, text, key), key) == text
  {
    var k := CleanKey(key);
    var e := Encipher(Encrypt, text, k);
    var d := Encipher(Decrypt, text, k);
    forall i | 0 <= i < |text|
      ensures Encipher(Decrypt, e, k)[i] == text[i]
      ensures Encipher(Encrypt, d, k)[i] == text[i]
    {
      LettersBeforeKept(Encrypt, text, k, i);
      LettersBeforeKept(Decrypt, text, k, i);
      if IsLetter(text[i]) {
        ShiftLetterInverse(text[i], k[LettersBefore(text, i) % |k|]);
      }
    }
  }

  /** The key index skips punctuation: in "AB, CD" with key "KEY" the letters
      take K, E, Y, K in turn. */
  lemma VigenereSkipsNonLetters()
    ensures Vigenere(Encrypt, "AB, CD", "KEY") == "KF, AN"
  {
    CleanKeyExample();
    EncipherExample();
  }

  lemma EncipherExample()
    ensures Encipher(Encrypt, "AB, CD", "KEY") == "KF, AN"
  {
    var t := "AB, CD";
    LettersBeforeExample();
    var r := Encipher(Encrypt, t, "KEY");
    assert r[0] == 'K' by { assert ShiftLetter(Encrypt, 'A', 'K') == 'K'; }
    assert r[1] == 'F' by { assert ShiftLetter(Encrypt, 'B', 'E') == 'F'; }
    assert r[2] == ',' && r[3] == ' ';
    assert r[4] == 'A' by { assert ShiftLetter(Encrypt, 'C', 'Y') == 'A'; }
    assert r[5] == 'N' by { assert ShiftLetter(Encrypt, 'D', 'K') == 'N'; }
  }

  lemma CleanKeyExample()
    ensures CleanKey("KEY") == "KEY"
  {
  }

  lemma LettersBeforeExample()
    ensures LettersBefore("AB, CD", 1) == 1
    ensures LettersBefore("AB, CD", 4) == 2
    ensures LettersBefore("AB, CD", 5) == 3
  {
  }
}
