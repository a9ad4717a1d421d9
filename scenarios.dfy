/** The situations the repository's tests exercise, stated for every crypto
    capability and every answer of the random source that fit them, and
    proved from the contracts of the TypeScript class alone. */
module Scenarios {
  import opened Primitives
  import Hex
  import opened Protocol
  import opened SimpleCryptoTs

  const Algorithm: string := "aes-256-cbc"
  /** The bytes of "abcdefghijklmnopqrstuvwxyz012345", a full-length key. */
  const FullPassphrase: seq<byte> :=
    [97, 98, 99, 100, 101, 102, 103, 104, 105, 106, 107, 108, 109, 110, 111, 112,
     113, 114, 115, 116, 117, 118, 119, 120, 121, 122, 48, 49, 50, 51, 52, 53]
  /** The bytes of "test". */
  const ShortPassphrase: seq<byte> := [116, 101, 115, 116]

  /** A configuration without algorithm or without passphrase, or with an
      algorithm the real module does not list, is refused with the
      corresponding message. */
  method ConstructionRejects(localCrypto: Crypto, nodeCrypto: Crypto, passphrase: seq<byte>)
    returns (noAlgorithm: Result<SimpleCrypto>, emptyAlgorithm: Result<SimpleCrypto>,
             noPassphrase: Result<SimpleCrypto>, emptyPassphrase: Result<SimpleCrypto>,
             badAlgorithm: Result<SimpleCrypto>)
    requires "aes-250-cbc" !in nodeCrypto.getCiphers
    requires passphrase != []
    ensures noAlgorithm == Err(Error(MissingMessage))
    ensures emptyAlgorithm == Err(Error(MissingMessage))
    ensures noPassphrase == Err(Error(MissingMessage))
    ensures emptyPassphrase == Err(Error(MissingMessage))
    ensures badAlgorithm == Err(Error(UnsupportedMessage))
  {
    noAlgorithm := New(Config(None, Some(passphrase)), localCrypto, nodeCrypto);
    emptyAlgorithm := New(Config(Some(""), Some(passphrase)), localCrypto, nodeCrypto);
    noPassphrase := New(Config(Some(Algorithm), None), localCrypto, nodeCrypto);
    emptyPassphrase := New(Config(Some(Algorithm), Some([])), localCrypto, nodeCrypto);
    badAlgorithm := New(Config(Some("aes-250-cbc"), Some(passphrase)), localCrypto, nodeCrypto);
  }

  /** Encrypting and then decrypting on one instance gives the text back; a
      rejected `encrypt` rejects the whole round with its error. */
  method EncryptThenDecrypt(localCrypto: Crypto, nodeCrypto: Crypto, text: seq<byte>,
                            ivSource: RandomSource, padSource: RandomSource)
    returns (encrypted: Result<string>, decrypted: Result<seq<byte>>)
    requires Algorithm in nodeCrypto.getCiphers
    requires Inverts(localCrypto)
    ensures encrypted.Ok? ==> decrypted == Ok(text)
    ensures encrypted.Err? ==> decrypted == Err(encrypted.error)
  {
    var created := New(Config(Some(Algorithm), Some(FullPassphrase)), localCrypto, nodeCrypto);
    var sc := created.value;
    encrypted := sc.Encrypt(text, None, ivSource, padSource);
    if encrypted.Err? {
      return encrypted, Err(encrypted.error);
    }
    decrypted := sc.Decrypt(encrypted.value, None);
  }

  /** A failing random source makes `encrypt` reject with its very error, and
      the instance's key material stays the passphrase. */
  method RandomFailurePropagates(localCrypto: Crypto, nodeCrypto: Crypto, text: seq<byte>,
                                 failure: Error, padSource: RandomSource)
    returns (encrypted: Result<string>, key: seq<byte>)
    requires Algorithm in nodeCrypto.getCiphers
    ensures encrypted == Err(failure)
    ensures key == FullPassphrase
  {
    var created := New(Config(Some(Algorithm), Some(FullPassphrase)), localCrypto, nodeCrypto);
    var sc := created.value;
    encrypted := sc.Encrypt(text, None, n => RandomAnswer(Some(failure), []), padSource);
    key := sc.passphrase;
  }

  /** With a full-length passphrase, a second instance of the same
      configuration decrypts what the first encrypted. */
  method OtherInstanceDecrypts(localCrypto: Crypto, nodeCrypto: Crypto, text: seq<byte>,
                               ivSource: RandomSource, padSource: RandomSource)
    returns (encrypted: Result<string>, decrypted: Result<seq<byte>>)
    requires Algorithm in nodeCrypto.getCiphers
    requires Inverts(localCrypto)
    ensures encrypted.Ok? ==> decrypted == Ok(text)
  {
    var first := New(Config(Some(Algorithm), Some(FullPassphrase)), localCrypto, nodeCrypto);
    var second := New(Config(Some(Algorithm), Some(FullPassphrase)), localCrypto, nodeCrypto);
    var sc1, sc2 := first.value, second.value;
    encrypted := sc1.Encrypt(text, None, ivSource, padSource);
    decrypted := sc2.Decrypt(if encrypted.Ok? then encrypted.value else "", None);
  }

  /** A four-byte passphrase is padded to 32 bytes by the first `encrypt`,
      keeps its own bytes in front, and the second `encrypt` reuses that key,
      so the first output still decrypts on the instance afterwards. */
  method ShortPassphrasePaddedOnce(localCrypto: Crypto, nodeCrypto: Crypto, text: seq<byte>,
                                   iv1: RandomSource, pad1: RandomSource,
                                   iv2: RandomSource, pad2: RandomSource)
    returns (first: Result<string>, second: Result<string>,
             keyAfterFirst: seq<byte>, keyAfterSecond: seq<byte>, decrypted: Result<seq<byte>>)
    requires Algorithm in nodeCrypto.getCiphers
    requires Inverts(localCrypto)
    requires NeverFails(iv1) && NeverFails(pad1) && Honest(pad1)
    ensures |keyAfterFirst| == KeyLength
    ensures keyAfterFirst[..|ShortPassphrase|] == ShortPassphrase
    ensures keyAfterSecond == keyAfterFirst
    ensures first.Ok? ==> decrypted == Ok(text)
  {
    var created := New(Config(Some(Algorithm), Some(ShortPassphrase)), localCrypto, nodeCrypto);
    var sc := created.value;
    first := sc.Encrypt(text, None, iv1, pad1);
    keyAfterFirst := sc.passphrase;
    ghost var before := sc.Decrypt(if first.Ok? then first.value else "", None);
    second := sc.Encrypt(text, None, iv2, pad2);
    keyAfterSecond := sc.passphrase;
    decrypted := sc.Decrypt(if first.Ok? then first.value else "", None);
    assert decrypted == before;
  }

  /** A 64-byte passphrase is passed to the cipher untruncated, so a cipher
      that takes only 32-byte keys makes `encrypt` reject. */
  method LongPassphraseRejected(localCrypto: Crypto, nodeCrypto: Crypto, text: seq<byte>,
                                ivSource: RandomSource, padSource: RandomSource)
    returns (encrypted: Result<string>, key: seq<byte>)
    requires Algorithm in nodeCrypto.getCiphers
    requires forall key, iv, t :: localCrypto.cipheriv(Algorithm, key, iv, t).Ok? ==> |key| == KeyLength
    ensures encrypted.Err?
    ensures key == FullPassphrase + FullPassphrase
  {
    var created := New(Config(Some(Algorithm), Some(FullPassphrase + FullPassphrase)), localCrypto, nodeCrypto);
    var sc := created.value;
    encrypted := sc.Encrypt(text, None, ivSource, padSource);
    key := sc.passphrase;
  }
}
