/** `process(mode, algo, text, key)` of index.js: the algorithm selector the
    web form posts to.  It dispatches on the algorithm's name, answers
    "Unrecognized algorithm." for any other name, and turns an exception
    escaping a cipher into "Error: " followed by its message. */
module Dispatcher {
  import opened Runtime
  import Ascii
  import Substitution
  import VigenereCipher
  import XorCipher
  import RailFenceCipher
  import HostCiphers

  datatype Algorithm = Aes256 | Des | Rc4 | Base64 | Caesar | Vigenere | Atbash | Rot13 | Xor | RailFence

  /** The `algorithms` list that the form offers, in its order. */
  const Menu: seq<string> := ["AES-256", "DES", "RC4", "Base64", "Caesar", "Vigenere", "Atbash", "ROT13", "XOR", "RailFence"]

  const Unrecognized := "Unrecognized algorithm."
  const ErrorPrefix := "Error: "

  /** The name under which the form lists an algorithm and `process`
      switches on it. */
  function Name(a: Algorithm): (n: string)
    ensures n in Menu
  {
    match a
    case Aes256 => "AES-256"
    case Des => "DES"
    case Rc4 => "RC4"
    case Base64 => "Base64"
    case Caesar => "Caesar"
    case Vigenere => "Vigenere"
    case Atbash => "Atbash"
    case Rot13 => "ROT13"
    case Xor => "XOR"
    case RailFence => "RailFence"
  }

  /** The `switch (algo)`: the names are compared exactly, case included. */
  function Lookup(algo: string): (a: Option<Algorithm>)
    ensures a.Some? ==> Name(a.value) == algo
    ensures a.None? ==> forall x :: Name(x) != algo
  {
    if algo == "AES-256" then Some(Aes256)
    else if algo == "DES" then Some(Des)
    else if algo == "RC4" then Some(Rc4)
    else if algo == "Base64" then Some(Base64)
    else if algo == "Caesar" then Some(Caesar)
    else if algo == "Vigenere" then Some(Vigenere)
    else if algo == "Atbash" then Some(Atbash)
    else if algo == "ROT13" then Some(Rot13)
    else if algo == "XOR" then Some(Xor)
    else if algo == "RailFence" then Some(RailFence)
    else None
  }

  /** One case of the switch: the cipher call and what it passes on.  Caesar
      and Rail Fence see the key through `parseInt`; Base64, Atbash and ROT13
      do not see it at all. */
  function Run(a: Algorithm, mode: Mode, text: string, key: string, h: Host): (o: Outcome)
    ensures o.Threw? ==>
      (a in {Aes256, Des, Rc4} && mode == Encrypt) ||
      (a == RailFence && RailFenceCipher.RailCount(h.parseInt(key)) > RailFenceCipher.MaxArrayLength)
  {
    match a
    case Aes256 => HostCiphers.Aes(mode, text, key, h)
    case Des => HostCiphers.Des(mode, text, key, h)
    case Rc4 => HostCiphers.Rc4(mode, text, key, h)
    case Base64 => Returned(HostCiphers.Base64(mode, text, h))
    case Caesar => Returned(Substitution.Caesar(mode, text, h.parseInt(key)))
    case Vigenere => Returned(VigenereCipher.Vigenere(mode, text, key))
    case Atbash => Returned(Substitution.Atbash(text))
    case Rot13 => Returned(Substitution.Rot13(text))
    case Xor => Returned(XorCipher.Xor(mode, text, key, h))
    case RailFence => RailFenceCipher.RailFence(mode, text, h.parseInt(key))
  }

  /** The `catch` of `process`: an exception is answered with "Error: "
      followed by its message. */
  function Report(o: Outcome): (r: string)
    ensures o.Returned? ==> r == o.value
    ensures o.Threw? ==> |r| >= |ErrorPrefix| && r[..|ErrorPrefix|] == ErrorPrefix && r[|ErrorPrefix|..] == o.message
  {
    match o
    case Returned(v) => v
    case Threw(m) => ErrorPrefix + m
  }

  /** `process(mode, algo, text, key)`. */
  function Process(mode: Mode, algo: string, text: string, key: string, h: Host): (r: string)
    ensures (forall a :: Name(a) != algo) ==> r == Unrecognized
    ensures forall a :: Name(a) == algo ==> r == Report(Run(a, mode, text, key, h))
  {
    LookupInverse(algo);
    match Lookup(algo)
    case None => Unrecognized
    case Some(a) => Report(Run(a, mode, text, key, h))
  }

  // ---------------------------------------------------------------------
  // Properties of the selector.

  /** Looking an algorithm's name up finds that algorithm. */
  lemma MenuComplete(a: Algorithm)
    ensures Lookup(Name(a)) == Some(a)
  {
  }

  /** Every entry of the menu is one of the switch's cases, so the form never
      offers a name that `process` does not recognise. */
  lemma MenuRecognized(algo: string)
    requires algo in Menu
    ensures Lookup(algo).Some? && Name(Lookup(algo).value) == algo
  {
  }

  /** A name that names an algorithm is looked up to that algorithm. */
  lemma LookupInverse(algo: string)
    ensures forall a :: Name(a) == algo ==> Lookup(algo) == Some(a)
  {
    forall a | Name(a) == algo ensures Lookup(algo) == Some(a) {
      MenuComplete(a);
    }
  }

  /** The names on the menu are distinct. */
  lemma NamesDistinct(a: Algorithm, b: Algorithm)
    requires a != b
    ensures Name(a) != Name(b)
  {
    assert Lookup(Name(a)) == Some(a) && Lookup(Name(b)) == Some(b);
  }

  /** The conditions under which a classical cipher, XOR or Base64 gives its
      text back: a Caesar key that parses to 0..26 or not at all, a Vigenère
      key with a letter, a non-empty XOR key, a Rail Fence key that gives at
      least 2 rails and not more than an array can hold, and lawful UTF-8 and
      base64 conversions. */
  ghost predicate Reversible(a: Algorithm, key: string, h: Host)
  {
    && a in {Base64, Caesar, Vigenere, Atbash, Rot13, Xor, RailFence}
    && (a == Base64 || a == Xor ==> Lawful(h))
    && (a == Caesar ==> h.parseInt(key).None? || 0 <= h.parseInt(key).value <= 26)
    && (a == Vigenere ==> VigenereCipher.CleanKey(key) != [])
    && (a == Xor ==> key != [])
    && (a == RailFence ==> 2 <= RailFenceCipher.RailCount(h.parseInt(key)) <= RailFenceCipher.MaxArrayLength)
  }

  /** Under those conditions the cipher call returns, and deciphering what it
      returned gives the text back. */
  lemma RunRoundTrip(a: Algorithm, text: string, key: string, h: Host)
    requires Reversible(a, key, h)
    ensures Run(a, Encrypt, text, key, h).Returned?
    ensures Run(a, Decrypt, Run(a, Encrypt, text, key, h).value, key, h) == Returned(text)
  {
    match a {
      case Base64 => HostCiphers.Base64RoundTrip(text, h);
      case Caesar => Substitution.CaesarRoundTrip(text, h.parseInt(key));
      case Vigenere => VigenereCipher.VigenereRoundTrip(text, key);
      case Atbash => Substitution.AtbashInvolutive(text);
      case Rot13 => Substitution.Rot13Involutive(text);
      case Xor => XorCipher.XorRoundTrip(text, key, h);
      case RailFence => RailFenceCipher.RailFenceRoundTrip(text, h.parseInt(key));
    }
  }

  /** The same round trip, through `process` and the algorithm's name. */
  lemma ProcessRoundTrip(a: Algorithm, text: string, key: string, h: Host)
    requires Reversible(a, key, h)
    ensures Process(Decrypt, Name(a), Process(Encrypt, Name(a), text, key, h), key, h) == text
  {
    RunRoundTrip(a, text, key, h);
  }

  /** The library ciphers decrypt what they encrypt through `process`, when
      encryption did not throw and the library's decipher undoes its
      encipher. */
  lemma ProcessLibraryRoundTrip(a: Algorithm, text: string, key: string, h: Host)
    requires a in {Aes256, Des, Rc4}
    requires a == Aes256 ==> HostCiphers.Invertible(h, Aes256Cbc)
    requires a == Des ==> HostCiphers.Invertible(h, DesCbc)
    requires a == Rc4 ==> HostCiphers.Invertible(h, Rc4Stream)
    requires Run(a, Encrypt, text, key, h).Returned?
    ensures Process(Decrypt, Name(a), Process(Encrypt, Name(a), text, key, h), key, h) == text
  {
    MenuComplete(a);
    match a {
      case Aes256 => HostCiphers.AesRoundTrip(text, key, h);
      case Des => HostCiphers.DesRoundTrip(text, key, h);
      case Rc4 => HostCiphers.Rc4RoundTrip(text, key, h);
    }
  }

  /** Atbash and ROT13 ignore both the mode and the key. */
  lemma SelfInverseIgnoreModeAndKey(a: Algorithm, m1: Mode, m2: Mode, text: string, k1: string, k2: string, h: Host)
    requires a == Atbash || a == Rot13
    ensures Process(m1, Name(a), text, k1, h) == Process(m2, Name(a), text, k2, h)
  {
    MenuComplete(a);
  }

  /** Decryption with AES-256, DES or RC4 never reports an exception: a
      failure comes back as "Invalid key or input". */
  lemma LibraryDecryptNeverThrows(a: Algorithm, text: string, key: string, h: Host)
    requires a in {Aes256, Des, Rc4}
    ensures Run(a, Decrypt, text, key, h).Returned?
  {
  }

  /** A Vigenère key without letters is refused. */
  lemma VigenereNeedsLetters(mode: Mode, text: string, key: string, h: Host)
    requires forall i :: 0 <= i < |key| ==> !Ascii.IsLetter(key[i])
    ensures Process(mode, "Vigenere", text, key, h) == "Key required"
  {
    assert Name(Vigenere) == "Vigenere";
  }

  /** An empty XOR key is refused. */
  lemma XorNeedsKey(mode: Mode, text: string, h: Host)
    ensures Process(mode, "XOR", text, "", h) == "Key required"
  {
    assert Name(Xor) == "XOR";
  }

  /** A key that gives fewer than two rails is refused with a message. */
  lemma RailFenceOneRail(mode: Mode, text: string, key: string, h: Host)
    requires RailFenceCipher.RailCount(h.parseInt(key)) < 2
    ensures Process(mode, "RailFence", text, key, h) == "Key must be >=2"
  {
    assert Name(RailFence) == "RailFence";
  }

  /** An exception escaping the selected cipher is answered with "Error: "
      and its message. */
  lemma ReportsException(a: Algorithm, mode: Mode, text: string, key: string, h: Host)
    requires Run(a, mode, text, key, h).Threw?
    ensures Process(mode, Name(a), text, key, h) == ErrorPrefix + Run(a, mode, text, key, h).message
  {
  }

  /** 2^32 rails make the array allocation throw, and the message is
      reported. */
  lemma RailFenceTooManyRails(mode: Mode, text: string, key: string, h: Host)
    requires h.parseInt(key) == Some(0x1_0000_0000)
    ensures Process(mode, Name(RailFence), text, key, h) == ErrorPrefix + RailFenceCipher.InvalidArrayLength
  {
    RailFenceCipher.TooManyRailsThrow(mode, text, h.parseInt(key));
    ReportsException(RailFence, mode, text, key, h);
  }

  /** A name outside the menu, including a differently cased one. */
  lemma UnknownName(mode: Mode, text: string, key: string, h: Host)
    ensures Process(mode, "Unknown", text, key, h) == Unrecognized
    ensures Process(mode, "rot13", text, key, h) == Unrecognized
    ensures Process(mode, "", text, key, h) == Unrecognized
  {
  }
}
