/** `aes`, `des`, `rc4` and `base64` of index.js: thin wrappers around Node's
    `crypto` and `Buffer`.  What the model keeps is what the wrappers
    themselves decide: how the key bytes and the IV are derived, which calls
    may throw, and which failures are turned into a message. */
module HostCiphers {
  import opened Runtime

  const InvalidKeyOrInput := "Invalid key or input"

  /** A digest cut to key size: the first `n` bytes, or all of them when
      there are fewer. */
  function Prefix(b: seq<byte>, n: nat): (r: seq<byte>)
    ensures |r| == if |b| < n then |b| else n
    ensures r <= b
  {
    if |b| <= n then b else b[..n]
  }

  /** A zero-filled buffer of `n` bytes. */
  function Zeros(n: nat): (r: seq<byte>)
    ensures |r| == n && forall i :: 0 <= i < n ==> r[i] == 0
  {
    seq(n, _ => 0)
  }

  /** The `catch` around a decipher call: whatever it throws becomes the fixed
      message "Invalid key or input". */
  function Recover(o: Outcome): (r: Outcome)
    ensures r.Returned?
    ensures o.Returned? ==> r == o
    ensures o.Threw? ==> r.value == InvalidKeyOrInput
  {
    match o
    case Returned(_) => o
    case Threw(_) => Returned(InvalidKeyOrInput)
  }

  /** The shape shared by the three cipher wrappers: encryption lets the
      library's exception escape, decryption catches it. */
  function Wrap(suite: Suite, mode: Mode, text: string, key: seq<byte>, iv: Option<seq<byte>>, h: Host): (o: Outcome)
    ensures mode == Decrypt ==> o.Returned?
    ensures mode == Decrypt && o.value != InvalidKeyOrInput ==> h.decipher(suite, key, iv, text) == o
    ensures mode == Encrypt ==> o == h.encipher(suite, key, iv, text)
  {
    if mode == Encrypt then h.encipher(suite, key, iv, text)
    else Recover(h.decipher(suite, key, iv, text))
  }

  /** The AES-256 key: the SHA-256 digest of the key string, cut to
      256 / 8 bytes. */
  function AesKey(key: string, h: Host): (k: seq<byte>)
    ensures |k| <= 32 && k <= h.digest(Sha256, key)
  {
    Prefix(h.digest(Sha256, key), 256 / 8)
  }

  /** The DES key: the first 8 bytes of the MD5 digest of the key string. */
  function DesKey(key: string, h: Host): (k: seq<byte>)
    ensures |k| <= 8 && k <= h.digest(Md5, key)
  {
    Prefix(h.digest(Md5, key), 8)
  }

  /** `aes(mode, text, key, 256)`: AES-256-CBC under a zero IV of 16 bytes. */
  function Aes(mode: Mode, text: string, key: string, h: Host): (o: Outcome)
    ensures mode == Decrypt ==> o.Returned?
    ensures mode == Encrypt ==> o == h.encipher(Aes256Cbc, AesKey(key, h), Some(Zeros(16)), text)
  {
    Wrap(Aes256Cbc, mode, text, AesKey(key, h), Some(Zeros(16)), h)
  }

  /** `des(mode, text, key)`: DES-CBC under a zero IV of 8 bytes. */
  function Des(mode: Mode, text: string, key: string, h: Host): (o: Outcome)
    ensures mode == Decrypt ==> o.Returned?
    ensures mode == Encrypt ==> o == h.encipher(DesCbc, DesKey(key, h), Some(Zeros(8)), text)
  {
    Wrap(DesCbc, mode, text, DesKey(key, h), Some(Zeros(8)), h)
  }

  /** `rc4(mode, text, key)`: RC4 keyed by the UTF-8 bytes of the key, with a
      `null` IV. */
  function Rc4(mode: Mode, text: string, key: string, h: Host): (o: Outcome)
    ensures mode == Decrypt ==> o.Returned?
    ensures mode == Encrypt ==> o == h.encipher(Rc4Stream, h.utf8Encode(key), None, text)
  {
    Wrap(Rc4Stream, mode, text, h.utf8Encode(key), None, h)
  }

  /** `base64(mode, text)`: UTF-8 bytes to base64 and back.  The key is not
      used. */
  function Base64(mode: Mode, text: string, h: Host): (r: string)
    ensures Lawful(h) && mode == Encrypt ==> h.utf8Decode(h.base64Decode(r)) == text
  {
    if mode == Encrypt then h.base64Encode(h.utf8Encode(text))
    else h.utf8Decode(h.base64Decode(text))
  }

  /** A library whose digests have their standard sizes: 32 bytes for
      SHA-256 and 16 for MD5. */
  ghost predicate StandardDigests(h: Host) {
    forall s :: |h.digest(Sha256, s)| == 32 && |h.digest(Md5, s)| == 16
  }

  /** A suite whose decipher call undoes its encipher call under the same key
      and IV. */
  ghost predicate Invertible(h: Host, suite: Suite) {
    forall k, iv, t, c :: h.encipher(suite, k, iv, t) == Returned(c) ==> h.decipher(suite, k, iv, c) == Returned(t)
  }

  /** With standard digests the derived keys have exactly the sizes AES-256
      and DES expect. */
  lemma KeySizes(key: string, h: Host)
    requires StandardDigests(h)
    ensures |AesKey(key, h)| == 32 && AesKey(key, h) == h.digest(Sha256, key)
    ensures |DesKey(key, h)| == 8 && DesKey(key, h) == h.digest(Md5, key)[..8]
  {
    assert |h.digest(Sha256, key)| == 32 && |h.digest(Md5, key)| == 16;
  }

  /** Deciphering what was enciphered under the same key string gives the
      text back, for AES-256, DES and RC4 alike, because the key bytes and
      the IV are derived the same way in both directions. */
  lemma WrapRoundTrip(suite: Suite, text: string, key: seq<byte>, iv: Option<seq<byte>>, h: Host)
    requires Invertible(h, suite)
    requires Wrap(suite, Encrypt, text, key, iv, h).Returned?
    ensures Wrap(suite, Decrypt, Wrap(suite, Encrypt, text, key, iv, h).value, key, iv, h) == Returned(text)
  {
    var c := h.encipher(suite, key, iv, text).value;
    assert h.decipher(suite, key, iv, c) == Returned(text);
  }

  lemma AesRoundTrip(text: string, key: string, h: Host)
    requires Invertible(h, Aes256Cbc) && Aes(Encrypt, text, key, h).Returned?
    ensures Aes(Decrypt, Aes(Encrypt, text, key, h).value, key, h) == Returned(text)
  {
    WrapRoundTrip(Aes256Cbc, text, AesKey(key, h), Some(Zeros(16)), h);
  }

  lemma DesRoundTrip(text: string, key: string, h: Host)
    requires Invertible(h, DesCbc) && Des(Encrypt, text, key, h).Returned?
    ensures Des(Decrypt, Des(Encrypt, text, key, h).value, key, h) == Returned(text)
  {
    WrapRoundTrip(DesCbc, text, DesKey(key, h), Some(Zeros(8)), h);
  }

  lemma Rc4RoundTrip(text: string, key: string, h: Host)
    requires Invertible(h, Rc4Stream) && Rc4(Encrypt, text, key, h).Returned?
    ensures Rc4(Decrypt, Rc4(Encrypt, text, key, h).value, key, h) == Returned(text)
  {
    WrapRoundTrip(Rc4Stream, text, h.utf8Encode(key), None, h);
  }

  /** Base64 decoding undoes Base64 encoding. */
  lemma Base64RoundTrip(text: string, h: Host)
    requires Lawful(h)
    ensures Base64(Decrypt, Base64(Encrypt, text, h), h) == text
  {
    var b := h.utf8Encode(text);
    assert h.base64Decode(h.base64Encode(b)) == b;
  }
}
