/** `SimpleCrypto` of src/index.ts: an algorithm name, an injected crypto
    capability and key material that the first `encrypt` pads in place. */
module SimpleCryptoTs {
  import opened Primitives
  import Hex
  import JsString
  import opened Protocol

  class SimpleCrypto {
    var crypto: Crypto
    var algorithm: string
    /** The key material; it starts as the passphrase's bytes. */
    var passphrase: seq<byte>

    /** The field assignments of the constructor, once its checks have passed
        (the checks are in `New`). */
    constructor (algorithm: string, passphrase: seq<byte>, localCrypto: Crypto)
      ensures this.crypto == localCrypto
      ensures this.algorithm == algorithm
      ensures this.passphrase == passphrase
    {
      this.crypto := localCrypto;
      this.algorithm := algorithm;
      this.passphrase := passphrase;
    }

    /** Draws the IV, then pads short key material with random bytes and keeps
        the padded key on the instance. A failed draw rejects with its own error
        and leaves the key as it was. */
    method GetKeyAndIV(ivSource: RandomSource, padSource: RandomSource) returns (r: Result<KeyAndIv>)
      modifies this`passphrase
      ensures r.Ok? <==> Drawn(old(passphrase), ivSource, padSource)
      ensures r.Err? ==>
        passphrase == old(passphrase) && r.error == DrawError(old(passphrase), ivSource, padSource)
      ensures r.Ok? ==>
        passphrase == Padded(old(passphrase), padSource) &&
        r.value == KeyAndIv(passphrase, ivSource(IvLength).bytes)
      ensures r.Ok? && Honest(ivSource) && Honest(padSource) ==>
        |r.value.iv| == IvLength &&
        |r.value.key| == (if |old(passphrase)| < KeyLength then KeyLength else |old(passphrase)|)
    {
      var ivBuffer := RandomBytes(IvLength, ivSource);
      if ivBuffer.Err? {
        return Err(ivBuffer.error);
      }
      var keyBuffer := passphrase;
      if |keyBuffer| < KeyLength {
        var randomBytes := RandomBytes(KeyLength - |keyBuffer|, padSource);
        if randomBytes.Err? {
          return Err(randomBytes.error);
        }
        keyBuffer := keyBuffer + randomBytes.value;
        passphrase := keyBuffer;
      }
      return Ok(KeyAndIv(keyBuffer, ivBuffer.value));
    }

    /** Enciphers `text` under the (possibly just padded) key and a fresh IV and
        frames it as `<hex IV>:<hex body>`; on the same instance `Decrypt`
        gives `text` back. */
    method Encrypt(text: seq<byte>, algorithm: Option<string>, ivSource: RandomSource, padSource: RandomSource)
      returns (r: Result<string>)
      modifies this`passphrase
      ensures !Drawn(old(passphrase), ivSource, padSource) ==>
        r == Err(DrawError(old(passphrase), ivSource, padSource)) && passphrase == old(passphrase)
      ensures Drawn(old(passphrase), ivSource, padSource) ==>
        passphrase == Padded(old(passphrase), padSource)
      ensures Drawn(old(passphrase), ivSource, padSource) ==>
        var sealed := crypto.cipheriv(algorithm.GetOr(this.algorithm), passphrase, ivSource(IvLength).bytes, text);
        (r.Ok? <==> sealed.Ok?) &&
        (r.Err? ==> r.error == sealed.error) &&
        (r.Ok? ==> r.value == Hex.Encode(ivSource(IvLength).bytes) + ":" + Hex.Encode(sealed.value))
      ensures r.Ok? && Honest(ivSource) ==>
        FirstColonAt(r.value, 2 * IvLength) &&
        forall i :: 0 <= i < 2 * IvLength ==> Hex.IsLowerDigit(r.value[i])
      ensures r.Ok? && Inverts(crypto) ==> Decrypt(r.value, algorithm) == Ok(text)
    {
      var keyAndIv := GetKeyAndIV(ivSource, padSource);
      if keyAndIv.Err? {
        return Err(keyAndIv.error);
      }
      var KeyAndIv(key, iv) := keyAndIv.value;
      var cipher := crypto.cipheriv(algorithm.GetOr(this.algorithm), key, iv, text);
      if cipher.Err? {
        return Err(cipher.error);
      }
      r := Ok(Hex.Encode(iv) + ":" + Hex.Encode(cipher.value));
      if |iv| == IvLength {
        FrameShape(iv, Hex.Encode(cipher.value));
      }
      FrameDecodes(iv, cipher.value, r.value);
    }

    /** Splits `hex` at its first `:` (with none, the IV part is empty and the
        body is all of `hex`), reads both parts as hex and deciphers under the
        current key material, which it does not pad. */
    function Decrypt(hex: string, algorithm: Option<string>): (r: Result<seq<byte>>)
      reads this
      ensures ':' !in hex ==>
        r == crypto.decipheriv(algorithm.GetOr(this.algorithm), passphrase, [], Hex.Decode(hex))
      ensures forall i :: FirstColonAt(hex, i) ==>
        r == crypto.decipheriv(algorithm.GetOr(this.algorithm), passphrase,
                               Hex.Decode(hex[..i]), Hex.Decode(hex[i + 1..]))
    {
      var iv := JsString.Substring(hex, 0, JsString.IndexOf(hex, ':'));
      var input := JsString.SubstringFrom(hex, JsString.IndexOf(hex, ':') + 1);
      SplitAtFirstColon(hex);
      crypto.decipheriv(algorithm.GetOr(this.algorithm), passphrase, Hex.Decode(iv), Hex.Decode(input))
    }
  }

  /** `new SimpleCrypto(config, localCrypto)`: throws when the algorithm or the
      passphrase is missing, or the algorithm is not in the real module's
      cipher list; otherwise an instance holding the injected capability. */
  method New(cfg: Config, localCrypto: Crypto, nodeCrypto: Crypto) returns (r: Result<SimpleCrypto>)
    ensures r.Err? <==> CheckConfig(cfg, nodeCrypto).Err?
    ensures r.Err? ==> r.error == CheckConfig(cfg, nodeCrypto).error
    ensures r.Ok? ==>
      fresh(r.value) &&
      r.value.crypto == localCrypto &&
      r.value.algorithm == cfg.algorithm.value &&
      r.value.passphrase == cfg.passphrase.value
  {
    var checked := CheckConfig(cfg, nodeCrypto);
    if checked.Err? {
      return Err(checked.error);
    }
    var instance := new SimpleCrypto(cfg.algorithm.value, cfg.passphrase.value, localCrypto);
    return Ok(instance);
  }
}
