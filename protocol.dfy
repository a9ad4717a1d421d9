/** The logic both versions of `SimpleCrypto` share: validating the
    configuration, settling a random-bytes request, padding the key material,
    and the `<hex IV>:<body>` wire format. */
module Protocol {
  import opened Primitives
  import Hex
  import JsString

  /** Key material is padded up to this many bytes. */
  const KeyLength: nat := 32
  /** Bytes of IV drawn for every encryption. */
  const IvLength: nat := 16

  const MissingMessage: string := "Failed to specify algorithm/passphrase"
  const UnsupportedMessage: string := "Algorithm not supported"

  /** The constructor's `{ algorithm, passphrase }`; `None` is null or undefined,
      and the passphrase is already its UTF-8 bytes. */
  datatype Config = Config(algorithm: Option<string>, passphrase: Option<seq<byte>>)

  /** JavaScript falsiness of a string field: null, undefined or empty. */
  predicate Missing<T>(field: Option<seq<T>>) {
    field.None? || |field.value| == 0
  }

  /** The constructor's checks, in order; `nodeCrypto` is the real `crypto`
      module, never the injected one. */
  function CheckConfig(cfg: Config, nodeCrypto: Crypto): (r: Result<()>)
    ensures r.Ok? <==>
      cfg.algorithm.Some? && cfg.algorithm.value != [] &&
      cfg.passphrase.Some? && cfg.passphrase.value != [] &&
      cfg.algorithm.value in nodeCrypto.getCiphers
    ensures r.Err? && (Missing(cfg.algorithm) || Missing(cfg.passphrase)) ==>
      r.error == Error(MissingMessage)
    ensures r.Err? && !Missing(cfg.algorithm) && !Missing(cfg.passphrase) ==>
      r.error == Error(UnsupportedMessage)
  {
    if Missing(cfg.algorithm) || Missing(cfg.passphrase) then Err(Error(MissingMessage))
    else if cfg.algorithm.value !in nodeCrypto.getCiphers then Err(Error(UnsupportedMessage))
    else Ok(())
  }

  /** `randomBytes(n)`: asks `source` for `n` bytes and wraps the callback in a
      promise, rejected with the callback's error itself or resolved with its
      bytes. */
  function RandomBytes(n: nat, source: RandomSource): (r: Result<seq<byte>>)
    ensures r.Err? <==> source(n).err.Some?
    ensures r.Err? ==> r.error == source(n).err.value
    ensures r.Ok? ==> r.value == source(n).bytes
    ensures r.Ok? && Honest(source) ==> |r.value| == n
  {
    match source(n).err
    case Some(e) => Err(e)
    case None => Ok(source(n).bytes)
  }

  /** How many random bytes the padding step requests for `key`: as many as
      bring it up to `KeyLength`, and none for a key that is long enough. */
  function PadLength(key: seq<byte>): (n: nat)
    ensures |key| + n == (if |key| < KeyLength then KeyLength else |key|)
  {
    if |key| < KeyLength then KeyLength - |key| else 0
  }

  /** The key material after the padding step of `getKeyAndIV`, given the bytes
      the random source returned for the padding request. */
  function Pad(key: seq<byte>, random: seq<byte>): (k: seq<byte>)
    ensures |key| <= |k| && k[..|key|] == key
    ensures |key| >= KeyLength ==> k == key
    ensures |random| == PadLength(key) ==>
      |k| == (if |key| < KeyLength then KeyLength else |key|)
  {
    if |key| < KeyLength then key + random else key
  }

  /** Once padded with as many bytes as requested, key material is never padded again. */
  lemma PadIdempotent(key: seq<byte>, random: seq<byte>, later: seq<byte>)
    requires |random| == PadLength(key)
    ensures Pad(Pad(key, random), later) == Pad(key, random)
  {
  }

  /** The key material `getKeyAndIV` stores and returns once its draws have
      succeeded: `key` padded with the bytes answering the padding request. */
  function Padded(key: seq<byte>, padSource: RandomSource): (k: seq<byte>)
    ensures Honest(padSource) && (|key| >= KeyLength || padSource(PadLength(key)).err.None?) ==>
      |k| == (if |key| < KeyLength then KeyLength else |key|)
  {
    Pad(key, padSource(PadLength(key)).bytes)
  }

  /** Both random requests of `getKeyAndIV` succeeded: the request for the IV's
      `IvLength` bytes, and, when the key is short, the request for its
      `PadLength` padding bytes (otherwise that request is never made). */
  predicate Drawn(key: seq<byte>, ivSource: RandomSource, padSource: RandomSource) {
    ivSource(IvLength).err.None? && (|key| >= KeyLength || padSource(PadLength(key)).err.None?)
  }

  /** The error a failed draw rejects with: the IV request's if it failed, else
      the padding request's. */
  function DrawError(key: seq<byte>, ivSource: RandomSource, padSource: RandomSource): (e: Error)
    requires !Drawn(key, ivSource, padSource)
    ensures ivSource(IvLength).err.Some? ==> e == ivSource(IvLength).err.value
    ensures ivSource(IvLength).err.None? ==>
      |key| < KeyLength && e == padSource(PadLength(key)).err.value
  {
    if ivSource(IvLength).err.Some? then ivSource(IvLength).err.value
    else padSource(PadLength(key)).err.value
  }

  /** What `getKeyAndIV` resolves with. */
  datatype KeyAndIv = KeyAndIv(key: seq<byte>, iv: seq<byte>)

  /** The first `:` of `w` is at position `i`. */
  predicate FirstColonAt(w: string, i: int) {
    0 <= i < |w| && w[i] == ':' && ':' !in w[..i]
  }

  /** The `indexOf`/`substring` split of both `decrypt`s cuts `w` at its first
      `:`, and `substr` cuts it at the same place; with no `:` the IV part is
      empty and the body is all of `w`. */
  lemma SplitAtFirstColon(w: string)
    ensures ':' !in w ==>
      JsString.Substring(w, 0, JsString.IndexOf(w, ':')) == [] &&
      JsString.SubstringFrom(w, JsString.IndexOf(w, ':') + 1) == w &&
      JsString.Substr(w, JsString.IndexOf(w, ':') + 1) == w
    ensures forall i :: FirstColonAt(w, i) ==>
      JsString.IndexOf(w, ':') == i &&
      JsString.Substring(w, 0, JsString.IndexOf(w, ':')) == w[..i] &&
      JsString.SubstringFrom(w, JsString.IndexOf(w, ':') + 1) == w[i + 1..] &&
      JsString.Substr(w, JsString.IndexOf(w, ':') + 1) == w[i + 1..]
  {
    if ':' !in w {
      JsString.SplitWithoutSeparator(w, ':');
      JsString.SubstrAgreesWithSubstring(w, 0);
    }
    forall i | FirstColonAt(w, i)
      ensures JsString.IndexOf(w, ':') == i
      ensures JsString.Substring(w, 0, i) == w[..i]
      ensures JsString.SubstringFrom(w, i + 1) == w[i + 1..]
      ensures JsString.Substr(w, i + 1) == w[i + 1..]
    {
      JsString.IndexOfFirst(w, ':', i);
      JsString.SlicesAround(w, i);
    }
  }

  /** The frame `ivHex + ":" + body` has its first `:` right after `ivHex`
      whenever `ivHex` holds none, and cutting there gives both parts back. */
  lemma FrameSplitsAfterIv(ivHex: string, body: string)
    requires ':' !in ivHex
    ensures FirstColonAt(ivHex + ":" + body, |ivHex|)
    ensures (ivHex + ":" + body)[..|ivHex|] == ivHex
    ensures (ivHex + ":" + body)[|ivHex| + 1..] == body
  {
    var w := ivHex + ":" + body;
    assert w[..|ivHex|] == ivHex;
  }

  /** A frame built by `encrypt` from an IV of `IvLength` bytes starts with
      32 lowercase hex digits and has its first `:` at position 32. */
  lemma FrameShape(iv: seq<byte>, body: string)
    requires |iv| == IvLength
    ensures FirstColonAt(Hex.Encode(iv) + ":" + body, 2 * IvLength)
    ensures forall i :: 0 <= i < 2 * IvLength ==> Hex.IsLowerDigit((Hex.Encode(iv) + ":" + body)[i])
  {
    FrameSplitsAfterIv(Hex.Encode(iv), body);
  }

  /** Cutting a frame `w` built by `encrypt` at its first `:` and reading both
      parts as hex gives back the IV and the enciphered body. */
  lemma FrameDecodes(iv: seq<byte>, body: seq<byte>, w: string)
    requires w == Hex.Encode(iv) + ":" + Hex.Encode(body)
    ensures FirstColonAt(w, 2 * |iv|)
    ensures Hex.Decode(w[..2 * |iv|]) == iv
    ensures Hex.Decode(w[2 * |iv| + 1..]) == body
  {
    FrameSplitsAfterIv(Hex.Encode(iv), Hex.Encode(body));
    Hex.DecodeEncode(iv);
    Hex.DecodeEncode(body);
  }
}
