/**
 * Pieces shared by the two ledger variants: byte strings, the TMSP result
 * codes and the responses built from them, the crypto adapter, and the
 * merkle key-value store the application reads and writes.
 */
module Common {

  type Bytes = seq<bv8>

  datatype Option<+T> = None | Some(value: T)

  datatype Result<+T, +E> = Ok(value: T) | Err(error: E)

  /** The closed set of TMSP result codes the application reports. */
  datatype Code = OK | EncodingError | Unauthorized | UnknownAccount | BadNonce

  /** The `{code, log}` object a handler passes to the engine's callback. */
  datatype Response = Response(code: Code, log: string)

  /**
   * The outcome of a validation routine: `Pass` where the routine returns
   * true, `Reject` where it reports a response and returns false.
   */
  datatype Check = Pass | Reject(response: Response)

  const PubKeyLength: nat := 32
  const SignatureLength: nat := 64

  // Responses shared by both variants, with the source's log text.
  const EmptyTx := Response(EncodingError, "Tx.inputs.length cannot be 0")
  const BadPubKeyLength := Response(EncodingError, "Input pubKey must be 32 bytes long")
  const BadSignatureLength := Response(EncodingError, "Input signature must be 64 bytes long")
  const InvalidSignature := Response(Unauthorized, "Invalid signature")
  const DuplicatePubKey := Response(EncodingError, "Duplicate input pubKey")

  /** What `checkTx` and `appendTx` hand back once a transaction is accepted. */
  const Accepted := Response(OK, "")

  datatype KeyPair = KeyPair(privKey: Bytes, pubKey: Bytes)

  /**
   * The Ed25519 and SHA-256 primitives the application calls, left
   * uninterpreted: every property proved here holds whatever they compute.
   */
  datatype Crypto = Crypto(
    verify: (Bytes, Bytes, Bytes) -> bool,  // (pubKey, message, signature)
    sha256: string -> Bytes,
    keyPairFromSeed: Bytes -> KeyPair)

  /**
   * deriveKeyPair: an empty seed gives no key pair; any other seed gives
   * the pair derived from the seed's SHA-256 digest.
   */
  function DeriveKeyPair(crypto: Crypto, seed: string): (r: Option<KeyPair>)
    ensures r.None? <==> seed == ""
    ensures r.Some? ==> r.value == crypto.keyPairFromSeed(crypto.sha256(seed))
  {
    if |seed| == 0 then None else Some(crypto.keyPairFromSeed(crypto.sha256(seed)))
  }

  /** The store obtained by issuing `writes` in order, later writes winning. */
  function ApplyWrites(data: map<Bytes, Bytes>, writes: seq<(Bytes, Bytes)>): map<Bytes, Bytes>
    decreases |writes|
  {
    if writes == [] then data
    else
      var last := writes[|writes| - 1];
      ApplyWrites(data, writes[..|writes| - 1])[last.0 := last.1]
  }

  /** The keys a list of writes touches. */
  function WrittenKeys(writes: seq<(Bytes, Bytes)>): set<Bytes>
  {
    set i | 0 <= i < |writes| :: writes[i].0
  }

  /**
   * Issuing writes that all agree with `values` leaves the store equal to
   * `values` on every written key and untouched everywhere else.
   */
  lemma {:induction false} ApplyAgreeingWrites(data: map<Bytes, Bytes>, writes: seq<(Bytes, Bytes)>,
                                               values: map<Bytes, Bytes>)
    requires forall i :: 0 <= i < |writes| ==> writes[i].0 in values && writes[i].1 == values[writes[i].0]
    ensures forall k :: k in ApplyWrites(data, writes) <==> k in data || k in WrittenKeys(writes)
    ensures forall k :: k in WrittenKeys(writes) ==> ApplyWrites(data, writes)[k] == values[k]
    ensures forall k :: k in data && k !in WrittenKeys(writes) ==> ApplyWrites(data, writes)[k] == data[k]
    decreases |writes|
  {
    if writes != [] {
      var n := |writes| - 1;
      var prefix := writes[..n];
      ApplyAgreeingWrites(data, prefix, values);
      assert WrittenKeys(writes) == WrittenKeys(prefix) + {writes[n].0} by {
        forall k | k in WrittenKeys(writes) ensures k in WrittenKeys(prefix) + {writes[n].0} {
          var i :| 0 <= i < |writes| && writes[i].0 == k;
          if i < n { assert prefix[i] == writes[i]; }
        }
        forall k | k in WrittenKeys(prefix) ensures k in WrittenKeys(writes) {
          var i :| 0 <= i < |prefix| && prefix[i].0 == k;
          assert writes[i] == prefix[i];
        }
      }
    }
  }

  /**
   * The merkle key-value service as the application sees it: `get` answers
   * empty bytes for a key it does not hold, and `set` overwrites one key.
   * The ghost write log records every `set` in order; the store's contents
   * are always the initial contents with that log applied.
   */
  class MerkleStore {
    var data: map<Bytes, Bytes>
    ghost const initial: map<Bytes, Bytes>
    ghost var writes: seq<(Bytes, Bytes)>

    ghost predicate Valid()
      reads this
    {
      data == ApplyWrites(initial, writes)
    }

    constructor (contents: map<Bytes, Bytes>)
      ensures Valid()
      ensures data == contents && writes == []
    {
      data := contents;
      initial := contents;
      writes := [];
    }

    /** `get`: the stored bytes, empty when the key is absent. */
    function Get(key: Bytes): Bytes
      reads this
    {
      if key in data then data[key] else []
    }

    /** `set`: one write, appended to the log. */
    method Set(key: Bytes, value: Bytes)
      requires Valid()
      modifies this
      ensures Valid()
      ensures data == old(data)[key := value]
      ensures writes == old(writes) + [(key, value)]
    {
      writes := writes + [(key, value)];
      assert writes[..|writes| - 1] == old(writes);
      data := data[key := value];
    }
  }
}
