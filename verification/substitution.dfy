/** The single-alphabet substitutions of index.js: Caesar, ROT13 and Atbash.
    Each one is `text.replace(/[a-z]/gi, f)`: a character-by-character map
    that rewrites the ASCII letters and leaves every other character where it
    is. */
module Substitution {
  import opened Ascii
  import opened Runtime

  /** JavaScript's `%` on integers: the remainder keeps the sign of the
      dividend, unlike Dafny's Euclidean `%`. */
  function JsRem(a: int, b: int): (r: int)
    requires b > 0
    ensures a >= 0 ==> 0 <= r < b && r == a % b
    ensures a < 0 ==> -b < r <= 0
    ensures a < 0 ==> r == a % b - (if a % b == 0 then 0 else b)
  {
    if a >= 0 then a % b else NegRem(a, b); -((-a) % b)
  }

  /** For a negative dividend the truncated remainder is the Euclidean one
      less `b`, unless `b` divides the dividend. */
  lemma NegRem(a: int, b: int)
    requires a < 0 && b > 0
    ensures -((-a) % b) == a % b - (if a % b == 0 then 0 else b)
  {
    var q, m := (-a) % b, (-a) / b;
    assert -a == m * b + q;
    if q == 0 {
      ModUnique(a, b, -m, 0);
    } else {
      ModUnique(a, b, -m - 1, b - q);
    }
  }

  /** `x % b` is the one remainder in [0, b) that leaves a multiple of `b`. */
  lemma ModUnique(x: int, b: int, k: int, r: int)
    requires b > 0 && 0 <= r < b && x == k * b + r
    ensures x % b == r
  {
    var d := k - x / b;
    assert d * b == x % b - r;
  }

  /** The shift Caesar applies: the parsed key, or 3 when it is `NaN` or 0;
      when decrypting, 26 minus that.  It is not reduced modulo 26. */
  function CaesarShift(mode: Mode, parsed: Option<int>): (s: int)
    ensures parsed.None? && mode == Encrypt ==> s == 3
    ensures parsed.None? && mode == Decrypt ==> s == 23
    ensures parsed.Some? && 1 <= parsed.value <= 26 ==> 0 <= s <= 26
    ensures mode == Encrypt ==> s != 0
    ensures parsed.Some? && parsed.value != 0 ==>
      s == (if mode == Encrypt then parsed.value else 26 - parsed.value)
    ensures parsed == Some(0) ==> s == (if mode == Encrypt then 3 else 23)
  {
    var k := OrDefault(parsed, 3);
    if mode == Encrypt then k else 26 - k
  }

  /** The replacement callback of `caesar`, applied to one character. */
  function RotateChar(c: char, shift: int): (r: char)
    ensures !IsLetter(c) ==> r == c
    ensures IsLetter(c) && shift >= 0 ==> IsLetter(r) && (IsLower(r) <==> IsLower(c))
    ensures IsLower(c) && shift >= 0 ==> (r as int - 97) == (c as int - 97 + shift) % 26
    ensures IsUpper(c) && shift >= 0 ==> (r as int - 65) == (c as int - 65 + shift) % 26
    ensures IsLower(c) ==> (r as int - 97) == JsRem(c as int - 97 + shift, 26)
    ensures IsUpper(c) ==> (r as int - 65) == JsRem(c as int - 65 + shift, 26)
  {
    if !IsLetter(c) then c
    else if c as int >= 97 then (JsRem(c as int - 97 + shift, 26) + 97) as char
    else (JsRem(c as int - 65 + shift, 26) + 65) as char
  }

  /** `caesar(mode, text, key)` with `parsed == parseInt(key)`. */
  function Caesar(mode: Mode, text: string, parsed: Option<int>): (r: string)
    ensures |r| == |text|
    ensures forall i :: 0 <= i < |text| && !IsLetter(text[i]) ==> r[i] == text[i]
    ensures CaesarShift(mode, parsed) >= 0 ==>
      forall i :: 0 <= i < |text| && IsLetter(text[i]) ==>
        IsLetter(r[i]) && (IsLower(r[i]) <==> IsLower(text[i]))
    ensures CaesarShift(mode, parsed) >= 0 ==>
      forall i :: 0 <= i < |text| && IsLower(text[i]) ==>
        r[i] as int - 97 == (text[i] as int - 97 + CaesarShift(mode, parsed)) % 26
    ensures CaesarShift(mode, parsed) >= 0 ==>
      forall i :: 0 <= i < |text| && IsUpper(text[i]) ==>
        r[i] as int - 65 == (text[i] as int - 65 + CaesarShift(mode, parsed)) % 26
    ensures forall i :: 0 <= i < |text| && IsLower(text[i]) ==>
      r[i] as int - 97 == JsRem(text[i] as int - 97 + CaesarShift(mode, parsed), 26)
    ensures forall i :: 0 <= i < |text| && IsUpper(text[i]) ==>
      r[i] as int - 65 == JsRem(text[i] as int - 65 + CaesarShift(mode, parsed), 26)
  {
    var s := CaesarShift(mode, parsed);
    seq(|text|, i requires 0 <= i < |text| => RotateChar(text[i], s))
  }

  /** `rot13(_, text)`: Caesar with key 13, encrypting whatever the mode. */
  function Rot13(text: string): (r: string)
    ensures |r| == |text|
    ensures forall i :: 0 <= i < |text| && !IsLetter(text[i]) ==> r[i] == text[i]
    ensures forall i :: 0 <= i < |text| && IsLetter(text[i]) ==>
      IsLetter(r[i]) && (IsLower(r[i]) <==> IsLower(text[i])) && r[i] != text[i]
    ensures forall i :: 0 <= i < |text| && IsLower(text[i]) ==>
      r[i] as int - 97 == (text[i] as int - 97 + 13) % 26
    ensures forall i :: 0 <= i < |text| && IsUpper(text[i]) ==>
      r[i] as int - 65 == (text[i] as int - 65 + 13) % 26
  {
    Caesar(Encrypt, text, Some(13))
  }

  /** The replacement callback of `atbash`: A..Z and a..z reversed. */
  function MirrorChar(c: char): (r: char)
    ensures !IsLetter(c) ==> r == c
    ensures IsUpper(c) ==> IsUpper(r) && r as int == 155 - c as int
    ensures IsLower(c) ==> IsLower(r) && r as int == 219 - c as int
  {
    if !IsLetter(c) then c
    else if c <= 'Z' then (90 - (c as int - 65)) as char
    else (122 - (c as int - 97)) as char
  }

  /** `atbash(_, text)`: the mode is ignored. */
  function Atbash(text: string): (r: string)
    ensures |r| == |text|
    ensures forall i :: 0 <= i < |text| && !IsLetter(text[i]) ==> r[i] == text[i]
    ensures forall i :: 0 <= i < |text| && IsLetter(text[i]) ==>
      IsLetter(r[i]) && (IsLower(r[i]) <==> IsLower(text[i]))
    ensures forall i :: 0 <= i < |text| && IsUpper(text[i]) ==> r[i] as int == 155 - text[i] as int
    ensures forall i :: 0 <= i < |text| && IsLower(text[i]) ==> r[i] as int == 219 - text[i] as int
  {
    seq(|text|, i requires 0 <= i < |text| => MirrorChar(text[i]))
  }

  /** Rotating by `k` and then by `26 - k` gives back the letter, for `k` in
      0..26, so both directions of Caesar undo each other there. */
  lemma RotateInverse(c: char, k: int)
    requires 0 <= k <= 26
    ensures RotateChar(RotateChar(c, k), 26 - k) == c
    ensures RotateChar(RotateChar(c, 26 - k), k) == c
  {
    RotateBack(c, k);
    RotateBack(c, 26 - k);
  }

  lemma RotateBack(c: char, k: int)
    requires 0 <= k <= 26
    ensures RotateChar(RotateChar(c, k), 26 - k) == c
  {
    if IsLetter(c) {
      var base := if IsLower(c) then 97 else 65;
      var x := c as int - base;
      var r := RotateChar(c, k);
      assert r as int - base == (x + k) % 26;
      ShiftBack(x, k);
      assert RotateChar(r, 26 - k) as int - base == ((x + k) % 26 + 26 - k) % 26;
    }
  }

  /** Offsets within one alphabet: adding `k` and then `26 - k` modulo 26
      returns to the start. */
  lemma ShiftBack(x: int, k: int)
    requires 0 <= x < 26 && 0 <= k <= 26
    ensures ((x + k) % 26 + 26 - k) % 26 == x
  {
    if x + k < 26 {
      assert (x + k) % 26 == x + k;
      assert (x + 26) % 26 == x;
    } else {
      assert (x + k) % 26 == x + k - 26;
      assert x % 26 == x;
    }
  }

  /** Caesar decryption undoes encryption, and the other way round, whenever
      the key parses to 1..26 or falls back to the default 3. */
  lemma CaesarRoundTrip(text: string, parsed: Option<int>)
    requires parsed.None? || 0 <= parsed.value <= 26
    ensures Caesar(Decrypt, Caesar(Encrypt, text, parsed), parsed) == text
    ensures Caesar(Encrypt, Caesar(Decrypt, text, parsed), parsed) == text
  {
    var k := OrDefault(parsed, 3);
    assert CaesarShift(Encrypt, parsed) == k && CaesarShift(Decrypt, parsed) == 26 - k;
    var e := Caesar(Encrypt, text, parsed);
    var d := Caesar(Decrypt, text, parsed);
    forall i | 0 <= i < |text|
      ensures Caesar(Decrypt, e, parsed)[i] == text[i]
      ensures Caesar(Encrypt, d, parsed)[i] == text[i]
    {
      RotateInverse(text[i], k);
    }
  }

  /** ROT13 is its own inverse. */
  lemma Rot13Involutive(text: string)
    ensures Rot13(Rot13(text)) == text
  {
    var once := Rot13(text);
    forall i | 0 <= i < |text| ensures Rot13(once)[i] == text[i] {
      RotateInverse(text[i], 13);
    }
  }

  /** Atbash is its own inverse. */
  lemma AtbashInvolutive(text: string)
    ensures Atbash(Atbash(text)) == text
  {
    var once := Atbash(text);
    forall i | 0 <= i < |text| ensures Atbash(once)[i] == text[i] {
      assert MirrorChar(MirrorChar(text[i])) == text[i];
    }
  }

  /** The shift is not reduced modulo 26: with key 30 decryption shifts by
      -4, and JavaScript's `%` then leaves the alphabet, so "w" encrypts to
      "a" but "a" decrypts to "]". */
  lemma CaesarKeyAbove26BreaksRoundTrip()
    ensures Caesar(Encrypt, "w", Some(30)) == "a"
    ensures Caesar(Decrypt, "a", Some(30)) == "]"
  {
    assert RotateChar('w', 30) == 'a';
    assert RotateChar('a', -4) == ']';
  }

  /** A negative key is not reduced either: key -1 maps "a" to "`". */
  lemma CaesarNegativeKeyLeavesAlphabet()
    ensures Caesar(Encrypt, "a", Some(-1)) == "`"
  {
    assert RotateChar('a', -1) == '`';
  }
}
