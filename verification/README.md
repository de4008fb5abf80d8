# Cipher engine of `index.js`, modelled in Dafny

The web application in `index.js` offers one operation: `process(mode, algo,
text, key)`. It selects one of ten transforms by name and returns a string.
The transforms are AES-256, DES, RC4, Base64, Caesar, Vigenère, Atbash,
ROT13, XOR and Rail Fence. This project models that engine and proves its
properties.

- The classical ciphers are modelled in full: Caesar, ROT13, Atbash,
  Vigenère, the XOR byte loop and Rail Fence.
- `vigenere` is a loop with the key counter `ki`, so it is modelled twice.
  A specification function describes it, and a method runs the same loop and
  is proved equal to it.
- The same pattern is used for the `out` loop of `xor` and for the rail
  buckets `arr`, `pat`, `idxs` and `ret` of `railfence`.
- AES-256, DES, RC4 and Base64 call Node's `crypto` and `Buffer`, whose code
  is not part of this model. They are modelled as calls through a `Host`
  value, a record of functions for the library calls. The model keeps what the
  wrappers decide themselves: key derivation, the IVs, which errors are caught,
  and the "Invalid key or input" message.
- `parseInt` is also a `Host` call. It returns `None` for `NaN`. The rule
  `parseInt(key) || default` is modelled exactly: `NaN` and `0` both fall back
  to the default.

Modules, one per file:

- `Ascii`: the letter classes that `/[a-z]/i` matches, and `ToUpper`.
- `Runtime`: `Mode`, `Outcome` (returned or thrown), `Host`, and `OrDefault`.
  `OrDefault` is the `|| default` rule. The ghost predicate `Lawful` states the
  UTF-8 and base64 round-trip laws.
- `Substitution`: Caesar, ROT13 and Atbash, with JavaScript's truncating `%`
  written out as `JsRem`.
- `VigenereCipher`: the key cleaning, the cipher, and the loop.
- `XorCipher`: the byte loop and `xor`.
- `RailFenceCipher`: the zig-zag walk, the encryption and decryption
  functions, and the four loops. Round trips in both directions, the
  bijection of `idxs`, and permutation proofs.
- `HostCiphers`: `aes`, `des`, `rc4` and `base64` over the `Host`.
- `Dispatcher`: `process`, its name lookup, and the catch-all.

Two behaviours of the code are modelled as written:

- Caesar does not reduce the key modulo 26: the shift is `parseInt(key) || 3`,
  or `26 - key` when decrypting.
  - JavaScript's `%` keeps the sign of the dividend.
  - So a key above 26 breaks the round trip, and a negative key maps some
    letters, such as 'a' with key -1, outside the alphabet.
  - `Substitution.CaesarKeyAbove26BreaksRoundTrip` and
    `Substitution.CaesarNegativeKeyLeavesAlphabet` prove both on concrete
    inputs.
  - The round trip is proved for parsed keys 0..26 and for a missing key.
- Rail Fence with 2^32 rails or more throws a RangeError, "Invalid array
  length", from `Array.from` (encrypt) or `Array(rails)` (decrypt).
  `process` reports it as "Error: Invalid array length".

## Model

| member | source | states |
|---|---|---|
| `Ascii.IsLetter` | index.js:67 | the class `/[a-z]/i`: a..z, or a character whose lower case is in a..z; only ASCII characters match |
| `Ascii.ToUpper` | index.js:73 | upper-casing a letter gives an upper-case letter; an upper-case letter is kept; a lower-case one moves down by 32 |
| `Runtime.OrDefault` | index.js:65 | the `or d` fallback after `parseInt`: `NaN` and 0 give `d`, a non-zero number is kept, and the result is zero only when `d` is |
| `Substitution.JsRem` | index.js:69-70 | JavaScript `%`: the Euclidean remainder for a non-negative dividend; for a negative one, a value in (-b, 0] equal to the Euclidean remainder less b, unless b divides the dividend |
| `Substitution.NegRem` | index.js:69-70 | the truncated remainder of a negative dividend is the Euclidean remainder less b, or 0 when b divides it |
| `Substitution.CaesarShift` | index.js:65-66 | a non-zero parsed key k is the shift when encrypting and 26 - k when decrypting; a missing key or a parsed 0 gives 3 when encrypting and 23 when decrypting; an encryption shift is never 0 |
| `Substitution.RotateChar` | index.js:67-70 | a non-letter is unchanged; a letter's new offset from 'a' or 'A' is JavaScript's remainder of its offset plus the shift, for any shift; for a non-negative shift it stays a letter of its case, with its offset moved by the shift modulo 26 |
| `Substitution.Caesar` | index.js:64-71 | the length is kept and every non-letter stays at its position; each letter's offset becomes JavaScript's remainder of offset plus shift, and for a non-negative shift the letter stays in its case with its offset moved by the shift modulo 26 |
| `Substitution.Rot13` | index.js:88 | the length is kept, non-letters stay in place, and every letter becomes a different letter of the same case, its offset moved by 13 modulo 26 |
| `Substitution.MirrorChar` | index.js:98-99 | A..Z map to 155 - c and a..z to 219 - c, staying in their case; other characters are unchanged |
| `Substitution.Atbash` | index.js:97-100 | the length is kept, non-letters stay in place, and letters stay in their case: an upper-case c becomes 155 - c (Z..A), a lower-case c becomes 219 - c (z..a) |
| `Substitution.RotateInverse` | index.js:66-70 | rotating by k and then by 26 - k, in either order, gives the character back, for k in 0..26 |
| `Substitution.RotateBack` | index.js:68-70 | rotating by k and then by 26 - k gives the character back, for k in 0..26 |
| `Substitution.CaesarRoundTrip` | index.js:64-71 | decrypt undoes encrypt and encrypt undoes decrypt, for a missing key or a key in 0..26 |
| `Substitution.Rot13Involutive` | index.js:88 | ROT13 applied twice is the identity |
| `Substitution.AtbashInvolutive` | index.js:97-100 | Atbash applied twice is the identity |
| `Substitution.CaesarKeyAbove26BreaksRoundTrip` | index.js:65-70 | with key 30, "w" encrypts to "a" but "a" decrypts to "]" |
| `Substitution.CaesarNegativeKeyLeavesAlphabet` | index.js:65-70 | with key -1, "a" encrypts to the backquote, character 96, which is not a letter |
| `VigenereCipher.CleanKey` | index.js:73 | the cleaned key has one character per letter of the key, and the letter at position i of the key appears upper-cased at index `LettersBefore(key, i)`: the key's letters, in order, upper-cased; it is empty exactly when the key has no letters |
| `VigenereCipher.LettersBefore` | index.js:78-83 | the key counter `ki` at position i never exceeds i |
| `VigenereCipher.ShiftLetter` | index.js:79-82 | the result is a letter of the input's case whose offset from 'a' or 'A' is the input's offset plus (encrypt) or minus (decrypt) the key letter's value (A = 0), modulo 26 |
| `VigenereCipher.Encipher` | index.js:76-85 | length kept; non-letters are copied; letter i stays in its case, and its offset moves by key letter (letters before i) modulo the key's length, forward when encrypting and back when decrypting, modulo 26 |
| `VigenereCipher.Vigenere` | index.js:72-87 | "Key required" when the key has no letters; otherwise the length is kept, non-letters are copied, and letters stay letters of the same case |
| `VigenereCipher.VigenereUsesKeyIndex` | index.js:76-85 | for a key with letters, letter i of the text is shifted by cleaned-key letter (letters before i) modulo the key's length: the key index advances only on letters |
| `VigenereCipher.RunVigenere` | index.js:72-87 | cleaning the key, refusing a key without letters and then running the loop computes `Vigenere` |
| `VigenereCipher.ShiftLoop` | index.js:75-86 | the loop with `res` and `ki` computes `Encipher` of the cleaned key |
| `VigenereCipher.LettersBeforeKept` | index.js:78-83 | enciphering does not change which positions hold letters, so both directions use the same key letters |
| `VigenereCipher.ShiftLetterInverse` | index.js:80-82 | shifting one way and then the other by the same key letter gives the letter back |
| `VigenereCipher.ShiftForwardBack` | index.js:80-82 | encrypting and then decrypting a letter gives it back |
| `VigenereCipher.ShiftBackForward` | index.js:80-82 | decrypting and then encrypting a letter gives it back |
| `VigenereCipher.VigenereRoundTrip` | index.js:72-87 | decrypt undoes encrypt and encrypt undoes decrypt, for every key with a letter |
| `VigenereCipher.VigenereSkipsNonLetters` | index.js:72-87 | "AB, CD" with key "KEY" encrypts to "KF, AN": the comma and the space do not use up key letters |
| `VigenereCipher.EncipherExample` | index.js:76-85 | the loop over "AB, CD" with the cleaned key "KEY" gives "KF, AN" |
| `XorCipher.XorStream` | index.js:93-94 | the output has the input's length |
| `XorCipher.XorLoop` | index.js:93-94 | the index loop over the zero-filled `out` buffer computes `out[i] == buf[i] ^ k[i % k.length]` for every i |
| `XorCipher.XorStreamInvolutive` | index.js:94 | running the byte loop twice with the same key gives the input bytes back |
| `XorCipher.Xor` | index.js:89-96 | an empty key gives "Key required"; otherwise, with lawful conversions, encryption's base64 output decodes to the XOR stream of the text's UTF-8 bytes, and decryption is the UTF-8 text of the XOR stream of the base64-decoded bytes |
| `XorCipher.XorRoundTrip` | index.js:89-96 | decrypt undoes encrypt for every non-empty key, when the UTF-8 and base64 conversions are lawful |
| `RailFenceCipher.Advance` | index.js:109-110 | one step moves the cursor one rail in its direction, and a cursor that is in bounds stays in bounds |
| `RailFenceCipher.Walk` | index.js:106-110 | after any number of steps the cursor is in bounds: going down there is a rail below it, going up there is a rail above it |
| `RailFenceCipher.Rail` | index.js:108 | the rail written on is always a valid index of `arr` |
| `RailFenceCipher.Zigzag` | index.js:106-110 | the closed form of the walk is a valid rail |
| `RailFenceCipher.WalkIsZigzag` | index.js:106-110 | the step-by-step walk is the triangle wave of period 2 * rails - 2, with the matching direction |
| `RailFenceCipher.TwoRailsAlternate` | index.js:106-110 | with two rails the walk is 0, 1, 0, 1, ... |
| `RailFenceCipher.OnRail` | index.js:107-108 | `arr[r]` holds as many characters as the walk puts on rail r |
| `RailFenceCipher.FenceLength` | index.js:112 | the first m rails joined hold as many characters as the walk puts on rails 0 to m - 1 |
| `RailFenceCipher.Encode` | index.js:104-112 | encryption keeps the length |
| `RailFenceCipher.HelloTwoRails` | index.js:104-112 | "HELLO" with 2 rails encrypts to "HLOEL" |
| `RailFenceCipher.HelloTopRail` | index.js:107-108 | H, L and O of "HELLO" go on the top rail |
| `RailFenceCipher.HelloBottomRail` | index.js:107-108 | E and L of "HELLO" go on the bottom rail |
| `RailFenceCipher.Rank` | index.js:122 | `idxs[i]` is a valid position of the ciphertext |
| `RailFenceCipher.Decode` | index.js:123-125 | decryption keeps the length |
| `RailFenceCipher.EncodeAt` | index.js:105-112 | the character at position i lands at `idxs[i]` of the ciphertext |
| `RailFenceCipher.DecodeEncode` | index.js:101-127 | decrypting the encryption gives the text back |
| `RailFenceCipher.RankInjective` | index.js:122 | distinct positions get distinct `idxs` entries |
| `RailFenceCipher.RankBijective` | index.js:122 | `idxs` is a bijection of [0, n), fixed by n and the number of rails |
| `RailFenceCipher.EncodeDecode` | index.js:113-125 | encrypting the decryption gives the ciphertext back |
| `RailFenceCipher.EncodePermutes` | index.js:104-112 | encryption only reorders the characters (same multiset) |
| `RailFenceCipher.DecodePermutes` | index.js:113-125 | decryption only reorders the characters |
| `RailFenceCipher.EncryptRails` | index.js:105-112 | the loop over `arr` with `rail` and `dir`, then the join, computes `Encode` |
| `RailFenceCipher.JoinRails` | index.js:112 | joining the filled rails top to bottom computes `Encode` |
| `RailFenceCipher.RecordWalk` | index.js:114-120 | `pat[i]` is the rail of position i |
| `RailFenceCipher.NumberRail` | index.js:122 | one pass of the double loop numbers the positions of rail r from `c` on and leaves the other entries alone |
| `RailFenceCipher.NumberPositions` | index.js:121-122 | the double loop fills `idxs` with the ranks of every position |
| `RailFenceCipher.DecryptRails` | index.js:114-125 | the `pat`, `idxs` and `ret` loops compute `Decode` |
| `RailFenceCipher.RailCount` | index.js:102 | the rail count is 2 for a missing key or a parsed 0, and the parsed value for a non-zero one |
| `RailFenceCipher.RailFence` | index.js:101-127 | fewer than 2 rails give "Key must be >=2"; 2^32 rails or more throw "Invalid array length"; otherwise the result is `Encode` (encrypt) or `Decode` (decrypt) with that rail count, a permutation of the text |
| `RailFenceCipher.TooManyRailsThrow` | index.js:105-121 | a rail count of 2^32 or more throws "Invalid array length" in either mode |
| `RailFenceCipher.RailFenceRoundTrip` | index.js:101-127 | decryption with the same key returns the text encrypted |
| `HostCiphers.Prefix` | index.js:23 | `slice(0, n)` is a prefix of length min(length, n) |
| `HostCiphers.Zeros` | index.js:24 | `Buffer.alloc(n, 0)` has n zero bytes |
| `HostCiphers.Recover` | index.js:29-32 | a decipher failure becomes "Invalid key or input"; a result passes through |
| `HostCiphers.Wrap` | index.js:25-33 | encryption lets the library's exception escape; decryption never throws, and any answer other than "Invalid key or input" is the library's |
| `HostCiphers.AesKey` | index.js:23 | the AES key is at most 32 bytes, a prefix of the SHA-256 digest |
| `HostCiphers.DesKey` | index.js:36 | the DES key is at most 8 bytes, a prefix of the MD5 digest |
| `HostCiphers.Aes` | index.js:22-34 | decryption never throws; encryption is AES-256-CBC under the derived key and a 16-byte zero IV |
| `HostCiphers.Des` | index.js:35-47 | decryption never throws; encryption is DES-CBC under the derived key and an 8-byte zero IV |
| `HostCiphers.Rc4` | index.js:48-58 | decryption never throws; encryption is RC4 under the key's UTF-8 bytes with a null IV |
| `HostCiphers.Base64` | index.js:59-63 | with lawful conversions, the encoding decodes back to the text |
| `HostCiphers.KeySizes` | index.js:23-36 | with standard digest sizes, the AES key is the whole 32-byte digest and the DES key is the first 8 MD5 bytes |
| `HostCiphers.WrapRoundTrip` | index.js:25-32 | when the library's decipher undoes its encipher, decrypting a successful encryption gives the text back |
| `HostCiphers.AesRoundTrip` | index.js:22-34 | AES-256 decrypt undoes a successful encrypt under the same key string |
| `HostCiphers.DesRoundTrip` | index.js:35-47 | DES decrypt undoes a successful encrypt under the same key string |
| `HostCiphers.Rc4RoundTrip` | index.js:48-58 | RC4 decrypt undoes a successful encrypt under the same key string |
| `HostCiphers.Base64RoundTrip` | index.js:59-63 | Base64 decode undoes encode, when the conversions are lawful |
| `Dispatcher.Name` | index.js:7-18 | every name the switch cases on is on the `algorithms` menu |
| `Dispatcher.Lookup` | index.js:132-143 | a found algorithm has exactly that name; not found means no algorithm has that name |
| `Dispatcher.Run` | index.js:133-142 | only AES-256, DES or RC4 encryption, or Rail Fence with too many rails, can throw |
| `Dispatcher.Report` | index.js:145 | a returned string is passed on; an exception becomes "Error: " followed by its message |
| `Dispatcher.Process` | index.js:130-146 | an unknown name gives "Unrecognized algorithm."; a known name runs that algorithm, and any exception is reported |
| `Dispatcher.MenuComplete` | index.js:133-142 | looking an algorithm's name up finds that algorithm |
| `Dispatcher.MenuRecognized` | index.js:7-18 | every name on the menu is a case of the switch, and it is that algorithm's name |
| `Dispatcher.LookupInverse` | index.js:132-143 | a name that names an algorithm looks up that algorithm |
| `Dispatcher.NamesDistinct` | index.js:7-18 | no two algorithms share a name |
| `Dispatcher.RunRoundTrip` | index.js:136-142 | under each cipher's key conditions, encryption returns and decryption gives the text back |
| `Dispatcher.ProcessRoundTrip` | index.js:130-146 | through `process`, decrypt undoes encrypt for Base64, Caesar, Vigenère, Atbash, ROT13, XOR and Rail Fence under their key conditions |
| `Dispatcher.ProcessLibraryRoundTrip` | index.js:133-135 | through `process`, AES-256, DES and RC4 decrypt a successful encryption back, when the library inverts itself |
| `Dispatcher.SelfInverseIgnoreModeAndKey` | index.js:139-140 | Atbash and ROT13 give the same answer for either mode and any key |
| `Dispatcher.LibraryDecryptNeverThrows` | index.js:133-135 | AES-256, DES and RC4 decryption always return a string |
| `Dispatcher.VigenereNeedsLetters` | index.js:73-74 | every Vigenère key without letters gives exactly "Key required", in either mode |
| `Dispatcher.XorNeedsKey` | index.js:90 | an empty XOR key gives exactly "Key required", in either mode |
| `Dispatcher.RailFenceOneRail` | index.js:102-103 | every key that gives fewer than 2 rails gives exactly "Key must be >=2", in either mode |
| `Dispatcher.RailFenceTooManyRails` | index.js:101-121 | any key that parses to 2^32 gives exactly "Error: Invalid array length", in either mode |
| `Dispatcher.ReportsException` | index.js:131-145 | when the selected cipher throws, `process` answers "Error: " followed by the exception's message |
| `Dispatcher.UnknownName` | index.js:143 | "Unknown", "rot13" (wrong case) and "" give "Unrecognized algorithm." |

## Left out

- The HTML page, the escaping helper `esc`, the Express routes, body parsing
  and `app.listen` (index.js:5, 149-298): page rendering and network I/O.
- The internals of Node's `crypto` and `Buffer`: SHA-256, MD5, AES, DES, RC4,
  UTF-8 and base64. They are fields of `Host`. The round trips that depend on
  them assume only the laws named in `Lawful`, `StandardDigests` and
  `Invertible`.
- `parseInt`'s parsing of the key string. It is a `Host` call; only the
  `|| default` rule after it is modelled.
- Modes other than "encrypt" and "decrypt". The form sends only these two.
  Another mode string would encrypt in `caesar` and decrypt in the other
  ciphers.
- A `key` or `text` that is not a string. The route replaces a missing one
  by `''`, but a JSON or extended form body can send a number, an array or an
  object. Then `key.replace` in `vigenere`, or `text.replace` in `caesar` and
  `atbash`, throws, and `process` answers "Error: " and the message. The model
  takes both as strings.
- Surrogate pairs. A Dafny `char` is a Unicode scalar value, so the model
  treats text as a sequence of code points. That is the unit of Rail Fence
  encryption's `for...of`, but decryption and `vigenere` index UTF-16 code
  units. The model assumes no character outside the Basic Multilingual
  Plane, where the two coincide.
- Rail Fence memory: encrypting or decrypting with a rail count below 2^32 is
  modelled as succeeding, even when allocating that many rails would exhaust
  memory.
- Rail Fence `pos` array (index.js:121): it is never read. Its only effect is
  the exception that its allocation raises, and `RailFence` models that.
- Caesar with a key beyond 2^53: JavaScript arithmetic on doubles loses
  precision there. The model uses unbounded integers.
- The permutation and round-trip properties of Rail Fence are proved for the
  functions `Encode` and `Decode`. The loops `EncryptRails` and
  `DecryptRails` are proved equal to those functions, and the pure
  `RailFence` and the dispatcher use the functions.
