/** What every cipher shares: the direction of a transform, the outcome of a
    JavaScript call that may throw, and the library calls (JavaScript's
    `parseInt`, Node's `Buffer` and `crypto`) whose code is not part of this
    model.  Those calls are fields of a `Host` value that is passed in. */
module Runtime {

  type byte = bv8

  datatype Option<+T> = None | Some(value: T)

  /** The form only ever sends "encrypt" or "decrypt". */
  datatype Mode = Encrypt | Decrypt

  /** A JavaScript call either returns a string or throws an error whose
      `message` is kept. */
  datatype Outcome = Returned(value: string) | Threw(message: string)

  /** What `vigenere` and `xor` answer when they are given no usable key. */
  const KeyRequired := "Key required"

  datatype Digest = Sha256 | Md5

  /** The OpenSSL cipher suites that `crypto.createCipheriv` is asked for. */
  datatype Suite = Aes256Cbc | DesCbc | Rc4Stream

  /** The library calls made by the engine.
      - `parseInt`: JavaScript's `parseInt`, with `None` for `NaN`.
      - `utf8Encode`/`utf8Decode`: `Buffer.from(s)` and `buf.toString()`.
      - `base64Encode`/`base64Decode`: `buf.toString('base64')` and the
        tolerant `Buffer.from(s, 'base64')`.
      - `digest`: `crypto.createHash(alg).update(s).digest()`.
      - `encipher`/`decipher`: `createCipheriv`/`createDecipheriv` followed by
        `update` and `final`, from UTF-8 text to base64 and back, given the
        key bytes and the IV (`None` for a `null` IV); a bad key, bad padding
        or an unsupported suite makes them throw. */
  datatype Host = Host(
    parseInt: string -> Option<int>,
    utf8Encode: string -> seq<byte>,
    utf8Decode: seq<byte> -> string,
    base64Encode: seq<byte> -> string,
    base64Decode: string -> seq<byte>,
    digest: (Digest, string) -> seq<byte>,
    encipher: (Suite, seq<byte>, Option<seq<byte>>, string) -> Outcome,
    decipher: (Suite, seq<byte>, Option<seq<byte>>, string) -> Outcome)

  /** The laws of UTF-8 and base64 that the round trips of XOR and Base64 rest
      on: only the empty string encodes to no bytes, decoding undoes encoding. */
  ghost predicate Lawful(h: Host) {
    && (forall s :: |h.utf8Encode(s)| == 0 <==> s == [])
    && (forall s :: h.utf8Decode(h.utf8Encode(s)) == s)
    && (forall b :: h.base64Decode(h.base64Encode(b)) == b)
  }

  /** A parsed key or, when it is `NaN` or 0, the default `d`: the `||`
      fallback the ciphers apply after `parseInt`. */
  function OrDefault(parsed: Option<int>, d: int): (r: int)
    ensures r != 0 || d == 0
    ensures parsed.Some? && parsed.value != 0 ==> r == parsed.value
    ensures parsed.None? || parsed.value == 0 ==> r == d
  {
    if parsed.None? || parsed.value == 0 then d else parsed.value
  }
}
