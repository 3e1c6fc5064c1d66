/**
 * The byte-level parts of the AES helper in gcrypto/aes.go: key-length
 * normalisation, PKCS #7 padding (section 6.3 of RFC 5652) and the framing
 * around the GCM and CBC ciphers. The block cipher, the GCM seal/open
 * operations, the random IV and nonce, and the environment lookup are
 * parameters of the model.
 */
module Aes {
  import opened Base
  import opened Arith

  const AES128KeySize: nat := 16
  const AES192KeySize: nat := 24
  const AES256KeySize: nat := 32

  /** `aes.BlockSize`. */
  const BlockSize: nat := 16

  /** The built-in key, the ASCII text "golib-default-aes-key-32bytes!!". */
  const DefaultAESKey: seq<byte> :=
    [103, 111, 108, 105, 98, 45, 100, 101, 102, 97, 117, 108, 116, 45, 97, 101,
     115, 45, 107, 101, 121, 45, 51, 50, 98, 121, 116, 101, 115, 33, 33]

  const ErrEmptyData := "data is empty"
  const ErrInvalidPadding := "invalid padding"
  const ErrMissingIV := "ciphertext too short: missing IV"
  const ErrMissingNonce := "ciphertext too short: missing nonce"

  /** A key length AES accepts: 16, 24 or 32 bytes. */
  predicate ValidKeyLength(n: nat)
  {
    n == AES128KeySize || n == AES192KeySize || n == AES256KeySize
  }

  // ---------------------------------------------------------------------
  // Key normalisation.
  // ---------------------------------------------------------------------

  /**
   * The key `NewAES` starts from: the given key, or, when it is empty, the
   * value of the key environment variable (`envKey`, empty when unset),
   * or, when that is empty too, the built-in key.
   */
  function KeySource(key: seq<byte>, envKey: seq<byte>): (src: seq<byte>)
    ensures src != []
    ensures key != [] ==> src == key
  {
    if key != [] then key else if envKey != [] then envKey else DefaultAESKey
  }

  /**
   * `NewAES`: keep a key of a valid length; zero-pad a shorter one to 32
   * bytes and cut a longer one to its first 32 bytes. It never fails.
   */
  method NewAES(key: seq<byte>, envKey: seq<byte>) returns (keyBytes: seq<byte>)
    ensures ValidKeyLength(|keyBytes|)
    ensures var src := KeySource(key, envKey);
      (ValidKeyLength(|src|) ==> keyBytes == src) &&
      (!ValidKeyLength(|src|) ==> |keyBytes| == AES256KeySize) &&
      (|src| <= |keyBytes| ==> keyBytes[..|src|] == src) &&
      (|src| > |keyBytes| ==> keyBytes == src[..|keyBytes|]) &&
      (forall i :: |src| <= i < |keyBytes| ==> keyBytes[i] == 0)
  {
    keyBytes := KeySource(key, envKey);
    var keyLen := |keyBytes|;
    if keyLen != AES128KeySize && keyLen != AES192KeySize && keyLen != AES256KeySize {
      if keyLen < AES256KeySize {
        var padding: seq<byte> := seq(AES256KeySize - keyLen, _ => 0);
        keyBytes := keyBytes + padding;
      } else {
        keyBytes := keyBytes[..AES256KeySize];
      }
    }
  }

  /** The built-in key is 31 bytes long, so `NewAES` extends it with one zero byte. */
  lemma DefaultKeyPadded()
    ensures |DefaultAESKey| == 31 && !ValidKeyLength(|DefaultAESKey|)
  {
  }

  // ---------------------------------------------------------------------
  // PKCS #7 padding.
  // ---------------------------------------------------------------------

  /**
   * `data` followed by p copies of the byte p mod 256, where
   * p = blockSize - len(data) % blockSize: between 1 and blockSize bytes
   * that make the length a multiple of the block size.
   */
  function Pad(data: seq<byte>, blockSize: nat): (out: seq<byte>)
    requires blockSize > 0
    ensures |data| < |out| <= |data| + blockSize
    ensures |out| % blockSize == 0
    ensures out[..|data|] == data
    ensures forall i :: |data| <= i < |out| ==> out[i] == (|out| - |data|) % 256
  {
    var p := blockSize - |data| % blockSize;
    var padtext: seq<byte> := seq(p, _ => p % 256);
    assert |data| + p == (|data| / blockSize + 1) * blockSize;
    ModMultiple(|data| / blockSize + 1, blockSize);
    assert (data + padtext)[..|data|] == data;
    data + padtext
  }

  /** `pkcs7Padding`: fill a buffer with the padding byte and append it. */
  method Pkcs7Padding(data: seq<byte>, blockSize: nat) returns (out: seq<byte>)
    requires blockSize > 0
    ensures out == Pad(data, blockSize)
  {
    var padding := blockSize - |data| % blockSize;
    var padtext := new byte[padding];
    for i := 0 to padding
      invariant forall j :: 0 <= j < i ==> padtext[j] == padding % 256
    {
      padtext[i] := padding % 256;
    }
    out := data + padtext[..];
  }

  /**
   * `pkcs7UnPadding`: drop as many trailing bytes as the last byte says.
   * Only the last byte is read: the bytes it removes are not checked, and
   * a last byte of 0 leaves the data unchanged.
   */
  function Pkcs7UnPadding(data: seq<byte>): (r: Result<seq<byte>, string>)
    ensures data == [] ==> r == Err(ErrEmptyData)
    ensures data != [] && data[|data| - 1] > |data| ==> r == Err(ErrInvalidPadding)
    ensures r.Ok? <==> data != [] && data[|data| - 1] <= |data|
    ensures r.Ok? ==> |r.value| == |data| - data[|data| - 1] && r.value == data[..|r.value|]
  {
    var length := |data|;
    if length == 0 then Err(ErrEmptyData)
    else
      var unpadding := data[length - 1];
      if unpadding > length then Err(ErrInvalidPadding)
      else Ok(data[..length - unpadding])
  }

  /** Unpadding undoes padding for every block size a padding byte can encode. */
  lemma UnPadPad(data: seq<byte>, blockSize: nat)
    requires 1 <= blockSize <= 255
    ensures Pkcs7UnPadding(Pad(data, blockSize)) == Ok(data)
  {
    var out := Pad(data, blockSize);
    assert out[|out| - 1] == |out| - |data|;
  }

  /** The removed bytes are not checked: any tail whose last byte is its own length is stripped. */
  lemma UnPaddingIgnoresTail(data: seq<byte>, tail: seq<byte>)
    requires tail != [] && tail[|tail| - 1] == |tail|
    ensures Pkcs7UnPadding(data + tail) == Ok(data)
  {
    assert (data + tail)[..|data|] == data;
  }

  // ---------------------------------------------------------------------
  // Framing around the ciphers.
  // ---------------------------------------------------------------------

  /**
   * `EncryptCBC` with the IV and the CBC encrypter given: pad to whole
   * blocks, encrypt, and put the IV in front.
   */
  function EncryptCBC(plaintext: seq<byte>, iv: seq<byte>, cbcEncrypt: (seq<byte>, seq<byte>) -> seq<byte>): (ct: seq<byte>)
    requires |iv| == BlockSize
    ensures |ct| >= BlockSize && ct[..BlockSize] == iv
  {
    iv + cbcEncrypt(iv, Pad(plaintext, BlockSize))
  }

  /**
   * `DecryptCBC` with the CBC decrypter given: input shorter than one block
   * is rejected before anything is decrypted; otherwise the first block is
   * the IV and the decrypted rest is unpadded.
   */
  function DecryptCBC(ciphertext: seq<byte>, cbcDecrypt: (seq<byte>, seq<byte>) -> seq<byte>): (r: Result<seq<byte>, string>)
    ensures |ciphertext| < BlockSize ==> r == Err(ErrMissingIV)
    ensures |ciphertext| >= BlockSize ==>
      r == Pkcs7UnPadding(cbcDecrypt(ciphertext[..BlockSize], ciphertext[BlockSize..]))
  {
    if |ciphertext| < BlockSize then Err(ErrMissingIV)
    else
      var iv := ciphertext[..BlockSize];
      var body := ciphertext[BlockSize..];
      Pkcs7UnPadding(cbcDecrypt(iv, body))
  }

  /** A CBC round trip returns the plaintext whenever the decrypter inverts the encrypter on the padded text. */
  lemma CBCRoundTrip(plaintext: seq<byte>, iv: seq<byte>,
                     cbcEncrypt: (seq<byte>, seq<byte>) -> seq<byte>, cbcDecrypt: (seq<byte>, seq<byte>) -> seq<byte>)
    requires |iv| == BlockSize
    requires cbcDecrypt(iv, cbcEncrypt(iv, Pad(plaintext, BlockSize))) == Pad(plaintext, BlockSize)
    ensures DecryptCBC(EncryptCBC(plaintext, iv, cbcEncrypt), cbcDecrypt) == Ok(plaintext)
  {
    var ct := EncryptCBC(plaintext, iv, cbcEncrypt);
    assert ct[BlockSize..] == cbcEncrypt(iv, Pad(plaintext, BlockSize));
    UnPadPad(plaintext, BlockSize);
  }

  /** `Encrypt` with the nonce and the GCM sealer given: the nonce followed by the sealed text. */
  function Encrypt(plaintext: seq<byte>, nonce: seq<byte>, seal: (seq<byte>, seq<byte>) -> seq<byte>): (ct: seq<byte>)
    ensures |ct| >= |nonce| && ct[..|nonce|] == nonce
  {
    nonce + seal(nonce, plaintext)
  }

  /**
   * `Decrypt` with the GCM opener given: input shorter than the nonce is
   * rejected before anything is opened; otherwise the nonce is split off
   * and the rest is opened.
   */
  function Decrypt(ciphertext: seq<byte>, nonceSize: nat, open: (seq<byte>, seq<byte>) -> Result<seq<byte>, string>)
    : (r: Result<seq<byte>, string>)
    ensures |ciphertext| < nonceSize ==> r == Err(ErrMissingNonce)
    ensures |ciphertext| >= nonceSize ==> r == open(ciphertext[..nonceSize], ciphertext[nonceSize..])
  {
    if |ciphertext| < nonceSize then Err(ErrMissingNonce)
    else open(ciphertext[..nonceSize], ciphertext[nonceSize..])
  }

  /** A GCM round trip returns the plaintext whenever the opener inverts the sealer. */
  lemma GCMRoundTrip(plaintext: seq<byte>, nonce: seq<byte>,
                     seal: (seq<byte>, seq<byte>) -> seq<byte>, open: (seq<byte>, seq<byte>) -> Result<seq<byte>, string>)
    requires open(nonce, seal(nonce, plaintext)) == Ok(plaintext)
    ensures Decrypt(Encrypt(plaintext, nonce, seal), |nonce|, open) == Ok(plaintext)
  {
    var ct := Encrypt(plaintext, nonce, seal);
    assert ct[|nonce|..] == seal(nonce, plaintext);
  }
}
