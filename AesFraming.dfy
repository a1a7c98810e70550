/**
 * The IV-prefix framing of the key-only AES overloads in
 * StringExtensions.Encryption.AES.cs: ToAESEncode(content, key) puts the
 * generated IV in front of the cipher text, and AESDecode(content, key) cuts
 * the first BlockSize/8 bytes off again as the IV. The cipher itself (CBC
 * with PKCS7 padding) is a pair of function parameters.
 */
module AesFraming {
  import opened Wrappers
  import opened Primitives

  /** Aes.BlockSize: AES has a 128-bit block (FIPS 197). */
  const BlockSizeBits: nat := 128
  /** ivLength = BlockSize / 8 */
  const IvLength: nat := BlockSizeBits / 8

  /** The exceptions the framing itself can raise. */
  datatype FramingError =
    | NegativeArrayLength   // new byte[dataToDecrypt.Length - ivLength] with a too short input

  /** The framed buffer: IV, then cipher text. */
  function Framed(iv: seq<byte>, encrypted: seq<byte>): (r: seq<byte>)
    ensures |r| == |iv| + |encrypted|
    ensures r[..|iv|] == iv && r[|iv|..] == encrypted
  {
    iv + encrypted
  }

  /** The split AESDecode makes: (IV, cipher text), or the exception for too short input. */
  function Split(data: seq<byte>): (r: Result<(seq<byte>, seq<byte>), FramingError>)
    ensures r.Ok? <==> |data| >= IvLength
    ensures r.Ok? ==> |r.value.0| == IvLength && r.value.0 + r.value.1 == data
  {
    if |data| < IvLength then Err(NegativeArrayLength) else Ok((data[..IvLength], data[IvLength..]))
  }

  /** Buffer.BlockCopy: count bytes from src at srcOffset into dst at dstOffset. */
  method BlockCopy(src: array<byte>, srcOffset: nat, dst: array<byte>, dstOffset: nat, count: nat)
    requires src != dst
    requires srcOffset + count <= src.Length && dstOffset + count <= dst.Length
    modifies dst
    ensures dst[..dstOffset] == old(dst[..dstOffset])
    ensures dst[dstOffset..dstOffset + count] == src[srcOffset..srcOffset + count]
    ensures dst[dstOffset + count..] == old(dst[dstOffset + count..])
  {
    var k := 0;
    while k < count
      invariant 0 <= k <= count
      invariant dst[..dstOffset] == old(dst[..dstOffset])
      invariant dst[dstOffset..dstOffset + k] == src[srcOffset..srcOffset + k]
      invariant dst[dstOffset + k..] == old(dst[dstOffset + k..])
    {
      dst[dstOffset + k] := src[srcOffset + k];
      k := k + 1;
    }
  }

  /** Copies a byte sequence into a new array, as the runtime's byte[] values arrive. */
  method ToArray(s: seq<byte>) returns (a: array<byte>)
    ensures fresh(a) && a[..] == s
  {
    a := new byte[|s|](i requires 0 <= i < |s| => s[i]);
  }

  /** The resultBytes allocation and the two BlockCopy calls that put the IV and then the cipher text into it. */
  method Frame(ivBytes: seq<byte>, encryptedBytes: seq<byte>) returns (resultBytes: seq<byte>)
    ensures resultBytes == Framed(ivBytes, encryptedBytes)
  {
    var iv := ToArray(ivBytes);
    var encrypted := ToArray(encryptedBytes);
    var result := new byte[iv.Length + encrypted.Length];
    BlockCopy(iv, 0, result, 0, iv.Length);
    BlockCopy(encrypted, 0, result, iv.Length, encrypted.Length);
    assert result[..] == result[..iv.Length] + result[iv.Length..iv.Length + encrypted.Length];
    resultBytes := result[..];
  }

  /** The ivBytes and encryptedBytes allocations and the two BlockCopy calls that copy the two parts out of the input. */
  method Unframe(dataToDecrypt: seq<byte>) returns (r: Result<(seq<byte>, seq<byte>), FramingError>)
    ensures r == Split(dataToDecrypt)
  {
    var data := ToArray(dataToDecrypt);
    var ivLength := IvLength;
    var ivBytes := new byte[ivLength];
    if data.Length - ivLength < 0 {
      assert |dataToDecrypt| == data.Length < IvLength;
      return Err(NegativeArrayLength);
    }
    var encryptedBytes := new byte[data.Length - ivLength];
    BlockCopy(data, 0, ivBytes, 0, ivLength);
    BlockCopy(data, ivLength, encryptedBytes, 0, encryptedBytes.Length);
    assert data[..] == dataToDecrypt;
    assert ivBytes[..] == ivBytes[0..ivLength] == data[0..ivLength] == dataToDecrypt[..IvLength];
    assert encryptedBytes[..] == encryptedBytes[0..encryptedBytes.Length] == data[ivLength..data.Length];
    assert data[ivLength..data.Length] == dataToDecrypt[IvLength..];
    r := Ok((ivBytes[..], encryptedBytes[..]));
  }

  /**
   * ToAESEncode(content, key): encrypt with the generated IV and frame the
   * result. The IV generator and the inner ToAESEncode(content, key, iv) are
   * parameters; the base64 conversions around them are left out.
   */
  method ToAESEncode(content: string, key: string, generatedIv: seq<byte>,
                     encrypt: (string, string, seq<byte>) -> seq<byte>)
    returns (resultBytes: seq<byte>)
    ensures resultBytes == Framed(generatedIv, encrypt(content, key, generatedIv))
  {
    var encryptedBytes := encrypt(content, key, generatedIv);
    resultBytes := Frame(generatedIv, encryptedBytes);
  }

  /** What AESDecode(content, key) returns or throws, for the inner decryption decrypt. */
  function Decoded(dataToDecrypt: seq<byte>, key: string,
                   decrypt: (seq<byte>, string, seq<byte>) -> string): Result<string, FramingError>
  {
    match Split(dataToDecrypt)
    case Err(e) => Err(e)
    case Ok((ivBytes, encryptedBytes)) => Ok(decrypt(encryptedBytes, key, ivBytes))
  }

  /** AESDecode(content, key): split off the IV and hand both parts to the inner AESDecode(content, key, iv). */
  method AESDecode(dataToDecrypt: seq<byte>, key: string,
                   decrypt: (seq<byte>, string, seq<byte>) -> string)
    returns (r: Result<string, FramingError>)
    ensures r == Decoded(dataToDecrypt, key, decrypt)
  {
    var parts := Unframe(dataToDecrypt);
    match parts {
      case Err(e) =>
        r := Err(e);
      case Ok((ivBytes, encryptedBytes)) =>
        r := Ok(decrypt(encryptedBytes, key, ivBytes));
    }
  }

  /** Input shorter than one block raises; otherwise the inner decryption gets the first 16 bytes as IV and the rest. */
  lemma DecodedCases(dataToDecrypt: seq<byte>, key: string, decrypt: (seq<byte>, string, seq<byte>) -> string)
    ensures |dataToDecrypt| < IvLength ==> Decoded(dataToDecrypt, key, decrypt) == Err(NegativeArrayLength)
    ensures |dataToDecrypt| >= IvLength ==>
              Decoded(dataToDecrypt, key, decrypt)
                == Ok(decrypt(dataToDecrypt[IvLength..], key, dataToDecrypt[..IvLength]))
  {
  }

  /** Splitting a framed buffer gives back the IV and the cipher text when the IV is one block long. */
  lemma SplitFramed(iv: seq<byte>, encrypted: seq<byte>)
    requires |iv| == IvLength
    ensures Split(Framed(iv, encrypted)) == Ok((iv, encrypted))
  {
  }

  /** Framing a split buffer gives back the buffer. */
  lemma FramedSplit(data: seq<byte>)
    requires |data| >= IvLength
    ensures Framed(Split(data).value.0, Split(data).value.1) == data
  {
  }

  /**
   * Key-only encode then decode hands the inner decryption exactly the IV
   * and the cipher text the inner encryption used; so when the inner pair is
   * a round trip, so is the key-only pair.
   */
  lemma KeyOnlyRoundTrip(content: string, key: string, iv: seq<byte>,
                         encrypt: (string, string, seq<byte>) -> seq<byte>,
                         decrypt: (seq<byte>, string, seq<byte>) -> string)
    requires |iv| == IvLength
    ensures Decoded(Framed(iv, encrypt(content, key, iv)), key, decrypt)
              == Ok(decrypt(encrypt(content, key, iv), key, iv))
    ensures decrypt(encrypt(content, key, iv), key, iv) == content ==>
              Decoded(Framed(iv, encrypt(content, key, iv)), key, decrypt) == Ok(content)
  {
    SplitFramed(iv, encrypt(content, key, iv));
  }
}
