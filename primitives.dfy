/** Values exchanged with Node's `crypto` module and with JavaScript callers:
    bytes, errors, the answer of the random source, and the injected crypto
    capability whose ciphers are opaque to this model. */
module Primitives {

  newtype byte = x: int | 0 <= x < 256

  datatype Option<+T> = None | Some(value: T) {
    /** The value, or `default` when absent (a JavaScript default parameter). */
    function GetOr(default: T): T {
      if Some? then value else default
    }
  }

  /** A JavaScript `Error` object. "The same error" is equality of these values. */
  datatype Error = Error(message: string)

  /** A settled promise: resolved with a value or rejected with an error. */
  datatype Result<+T> = Ok(value: T) | Err(error: Error)

  /** What `crypto.randomBytes(n, callback)` passes to its callback: an error,
      or none and the bytes drawn. */
  datatype RandomAnswer = RandomAnswer(err: Option<Error>, bytes: seq<byte>)

  /** The random source honours a request for `n` bytes. */
  predicate Delivers(answer: RandomAnswer, n: nat) {
    answer.err.None? ==> |answer.bytes| == n
  }

  /** `crypto.randomBytes` as seen by one request: the answer it gives when
      asked for `n` bytes. */
  type RandomSource = nat -> RandomAnswer

  /** The source honours every request it answers without an error. */
  ghost predicate Honest(source: RandomSource) {
    forall n: nat :: Delivers(source(n), n)
  }

  /** The source answers every request without an error. */
  ghost predicate NeverFails(source: RandomSource) {
    forall n: nat :: source(n).err.None?
  }

  /** The part of a `crypto` module object that the class uses.
      `cipheriv(algorithm, key, iv, text)` stands for `createCipheriv` followed by
      `update` and `final`, and `decipheriv` likewise for `createDecipheriv`;
      either may fail (unknown algorithm, wrong key or IV length, bad padding). */
  datatype Crypto = Crypto(
    getCiphers: seq<string>,
    cipheriv: (string, seq<byte>, seq<byte>, seq<byte>) -> Result<seq<byte>>,
    decipheriv: (string, seq<byte>, seq<byte>, seq<byte>) -> Result<seq<byte>>)

  /** The one property assumed of a cipher: deciphering with the same algorithm,
      key and IV undoes a successful encipherment. */
  ghost predicate Inverts(c: Crypto) {
    forall algorithm, key, iv, text ::
      c.cipheriv(algorithm, key, iv, text).Ok? ==>
        c.decipheriv(algorithm, key, iv, c.cipheriv(algorithm, key, iv, text).value) == Ok(text)
  }
}
