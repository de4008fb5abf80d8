/** `xor(mode, text, key)` of index.js: every byte of the input is XORed with
    the key's bytes, the key repeated as often as needed. */
module XorCipher {
  import opened Runtime

  /** The bytes the loop writes into `out`: byte `i` of the input XOR byte
      `i mod |k|` of the key. */
  function XorStream(buf: seq<byte>, k: seq<byte>): (r: seq<byte>)
    requires |k| > 0
    ensures |r| == |buf|
  {
    seq(|buf|, i requires 0 <= i < |buf| => buf[i] ^ k[i % |k|])
  }

  /** The byte loop of `xor`: a zero-filled buffer as long as the input gets,
      at each index, the input byte XOR the key byte at that index modulo the
      key's length. */
  method XorLoop(buf: seq<byte>, k: seq<byte>) returns (r: seq<byte>)
    requires |k| > 0
    ensures r == XorStream(buf, k)
  {
    var out := new byte[|buf|](_ => 0);
    for i := 0 to |buf|
      invariant forall j :: 0 <= j < i ==> out[j] == buf[j] ^ k[j % |k|]
    {
      out[i] := buf[i] ^ k[i % |k|];
    }
    r := out[..];
  }

  /** Running the byte loop twice with the same key gives back the input. */
  lemma XorStreamInvolutive(buf: seq<byte>, k: seq<byte>)
    requires |k| > 0
    ensures XorStream(XorStream(buf, k), k) == buf
  {
    var once := XorStream(buf, k);
    forall i | 0 <= i < |buf| ensures XorStream(once, k)[i] == buf[i] {
      var b, x := buf[i], k[i % |k|];
      assert (b ^ x) ^ x == b;
    }
  }

  /** `xor(mode, text, key)`.  Encrypt reads the text as UTF-8 and writes
      base64; decrypt reads base64 and writes UTF-8.  When the key buffer is
      empty, `k[i % 0]` is `undefined` and `b ^ undefined == b`, so the bytes
      pass unchanged (a lawful host never gets there: the key is not empty). */
  function Xor(mode: Mode, text: string, key: string, h: Host): (r: string)
    ensures key == [] ==> r == KeyRequired
    ensures Lawful(h) && key != [] && mode == Encrypt ==>
      |h.utf8Encode(key)| > 0 &&
      h.base64Decode(r) == XorStream(h.utf8Encode(text), h.utf8Encode(key))
    ensures Lawful(h) && key != [] && mode == Decrypt ==>
      r == h.utf8Decode(XorStream(h.base64Decode(text), h.utf8Encode(key)))
  {
    if key == [] then KeyRequired
    else
      var k := h.utf8Encode(key);
      var buf := if mode == Encrypt then h.utf8Encode(text) else h.base64Decode(text);
      var out := if |k| == 0 then buf else XorStream(buf, k);
      if mode == Encrypt then h.base64Encode(out) else h.utf8Decode(out)
  }

  /** With lawful UTF-8 and base64 conversions, XOR decryption undoes XOR
      encryption for every non-empty key. */
  lemma XorRoundTrip(text: string, key: string, h: Host)
    requires Lawful(h) && key != []
    ensures Xor(Decrypt, Xor(Encrypt, text, key, h), key, h) == text
  {
    var k := h.utf8Encode(key);
    assert |k| > 0;
    var out := XorStream(h.utf8Encode(text), k);
    assert Xor(Encrypt, text, key, h) == h.base64Encode(out);
    assert h.base64Decode(h.base64Encode(out)) == out;
    XorStreamInvolutive(h.utf8Encode(text), k);
    assert h.utf8Decode(h.utf8Encode(text)) == text;
  }
}
